/**
 Page maps as trees of tables in physical frames. A table is named by the path
 of indices that leads to it from the top-level table, so "two paths never reach
 the same table" is what makes a tree, and a translation is a path of full length.
 */
module PageTables {
  import opened Bits
  import opened FrameAllocator
  import opened PageEntries
  import opened Wrappers

  type Path = seq<nat>

  // ----- The walk ----------------------------------------------------------------------

  /** The word at index i of the table in frame t. */
  function Word(frames: seq<Frame>, t: nat, i: nat): Option<nat> {
    if t < |frames| && i < |frames[t]| then Some(frames[t][i]) else None
  }

  /** One level of the hardware walk: follow a present entry. */
  function Step(frames: seq<Frame>, t: nat, i: nat): Option<nat> {
    match Word(frames, t, i)
    case None => None
    case Some(w) => if Present(w) then Some(GetAddress(w)) else None
  }

  /** The frame a path leads to, if every entry on the way is present. */
  ghost function TableAt(frames: seq<Frame>, top: nat, path: Path): Option<nat> {
    if path == [] then Some(top)
    else
      match TableAt(frames, top, path[..|path| - 1])
      case None => None
      case Some(t) => Step(frames, t, path[|path| - 1])
  }

  /** The word in the last-level slot that a full path of indices selects, 0 where there is no table. */
  ghost function RawLeaf(frames: seq<Frame>, top: nat, path: Path): nat
    requires path != []
  {
    match TableAt(frames, top, path[..|path| - 1])
    case None => 0
    case Some(t) =>
      match Word(frames, t, path[|path| - 1])
      case None => 0
      case Some(w) => w
  }

  /** The page entry a full path of indices selects, if the page is mapped. */
  ghost function Leaf(frames: seq<Frame>, top: nat, path: Path): Option<nat>
    requires path != []
  {
    if Present(RawLeaf(frames, top, path)) then Some(RawLeaf(frames, top, path)) else None
  }

  // ----- Trees ----------------------------------------------------------------------------

  ghost predicate Reaches(frames: seq<Frame>, top: nat, path: Path, f: nat) {
    TableAt(frames, top, path) == Some(f)
  }

  /** Tables on fewer than `levels` indices lie in used frames, and no two paths share one. */
  ghost predicate Tree(frames: seq<Frame>, top: nat, levels: nat, used: set<nat>) {
    && (forall p: Path, f: nat | |p| < levels && Reaches(frames, top, p, f) :: f < |frames| && f in used)
    && (forall p: Path, q: Path, f: nat | |p| < levels && |q| < levels && Reaches(frames, top, p, f)
        && Reaches(frames, top, q, f) :: p == q)
  }

  /** Tables above the last level hold no large-page entry. */
  ghost predicate NoLargePages(frames: seq<Frame>, top: nat, levels: nat) {
    forall p: Path, f: nat, i: nat | |p| < levels - 1 && Reaches(frames, top, p, f) :: !LargeAt(frames, f, i)
  }

  /** Every present entry above the last level of every map allows writing and user access. */
  ghost predicate OpenTables(frames: seq<Frame>, tops: set<nat>, levels: nat) {
    forall b, p: Path, f: nat, i: nat | b in tops && |p| < levels - 1 && Reaches(frames, b, p, f) ::
      OpenAt(frames, f, i)
  }

  ghost predicate OpenAt(frames: seq<Frame>, f: nat, i: nat) {
    Word(frames, f, i).Some? && Present(Word(frames, f, i).value) ==> Open(Word(frames, f, i).value)
  }

  ghost predicate LargeAt(frames: seq<Frame>, f: nat, i: nat) {
    Word(frames, f, i).Some? && Large(Word(frames, f, i).value)
  }

  /**
   Two maps a and b share tables only at the same non-empty path, and only below a
   shared parent: what they have in common hangs from equal top-level entries.
   */
  ghost predicate Apart(frames: seq<Frame>, a: nat, b: nat, levels: nat) {
    forall p: Path, q: Path, f: nat | |p| < levels && |q| < levels && Reaches(frames, a, p, f)
    && Reaches(frames, b, q, f) ::
      p == q && p != [] && (|p| >= 2 ==> SameParent(frames, a, b, p))
  }

  ghost predicate SameParent(frames: seq<Frame>, a: nat, b: nat, p: Path)
    requires p != []
  {
    TableAt(frames, a, p[..|p| - 1]) == TableAt(frames, b, p[..|p| - 1])
  }

  // ----- Writing one word --------------------------------------------------------------------

  function WriteWord(frames: seq<Frame>, t: nat, i: nat, w: nat): (r: seq<Frame>)
    requires t < |frames| && i < |frames[t]|
    ensures |r| == |frames|
  {
    var f: Frame := frames[t][i := w];
    frames[t := f]
  }

  lemma WriteWordAt(frames: seq<Frame>, t: nat, i: nat, w: nat, u: nat, j: nat)
    requires t < |frames| && i < |frames[t]|
    ensures Word(WriteWord(frames, t, i, w), u, j) == if u == t && j == i then Some(w) else Word(frames, u, j)
  {
  }

  /** A prefix of a path that does not pass through p + [i] does not either. */
  lemma PrefixAvoids(p: Path, i: nat, q: Path)
    requires q != [] && !(p + [i] <= q)
    ensures !(p + [i] <= q[..|q| - 1]) && (q[..|q| - 1] == p ==> q[|q| - 1] != i)
  {
    assert q == q[..|q| - 1] + [q[|q| - 1]];
  }

  /**
   Writing entry i of the table at path p: every path that does not pass through
   that entry leads where it led before.
   */
  lemma {:induction false} WriteKeepsPath(frames: seq<Frame>, top: nat, levels: nat, used: set<nat>, p: Path, t: nat,
                                          i: nat, w: nat, q: Path)
    requires Tree(frames, top, levels, used) && |p| < levels && Reaches(frames, top, p, t) && t < |frames|
    requires i < |frames[t]|
    requires |q| <= levels && !(p + [i] <= q)
    ensures TableAt(WriteWord(frames, t, i, w), top, q) == TableAt(frames, top, q)
    decreases |q|
  {
    if q != [] {
      var r := q[..|q| - 1];
      PrefixAvoids(p, i, q);
      WriteKeepsPath(frames, top, levels, used, p, t, i, w, r);
      var b := TableAt(frames, top, r);
      if b.Some? {
        assert Reaches(frames, top, r, b.value);
        WriteWordAt(frames, t, i, w, b.value, q[|q| - 1]);
      }
    }
  }

  /** A frame that is no table of the map can be rewritten without moving any path. */
  lemma {:induction false} ForeignKeepsPath(frames: seq<Frame>, frames': seq<Frame>, top: nat, levels: nat, t: nat,
                                            q: Path)
    requires forall u: nat, j: nat | u != t :: Word(frames', u, j) == Word(frames, u, j)
    requires forall r: Path | |r| < levels :: !Reaches(frames, top, r, t)
    requires |q| <= levels
    ensures TableAt(frames', top, q) == TableAt(frames, top, q)
    decreases |q|
  {
    if q != [] {
      var r := q[..|q| - 1];
      ForeignKeepsPath(frames, frames', top, levels, t, r);
      var b := TableAt(frames, top, r);
      if b.Some? {
        assert !Reaches(frames, top, r, t);
        assert Word(frames', b.value, q[|q| - 1]) == Word(frames, b.value, q[|q| - 1]);
      }
    }
  }

  /** Nothing is reachable below a path that leads nowhere. */
  lemma {:induction false} NothingBelow(frames: seq<Frame>, top: nat, p: Path, q: Path)
    requires TableAt(frames, top, p).None? && p <= q
    ensures TableAt(frames, top, q).None?
    decreases |q|
  {
    if q != p {
      var r := q[..|q| - 1];
      assert p <= r;
      NothingBelow(frames, top, p, r);
    }
  }

  // ----- Adding a table -------------------------------------------------------------------

  /** get_next_lvl on an absent entry: frame n is zeroed and hung into entry i of table t. */
  function Grow(frames: seq<Frame>, t: nat, i: nat, n: nat): (r: seq<Frame>)
    requires t < |frames| && i < |frames[t]| && n < |frames| && n != t
    ensures |r| == |frames|
  {
    WriteWord(frames[n := ZeroFrame()], t, i, TableEntry(frames[t][i], n))
  }

  lemma GrowWord(frames: seq<Frame>, t: nat, i: nat, n: nat, u: nat, j: nat)
    requires t < |frames| && i < |frames[t]| && n < |frames| && n != t
    ensures Word(Grow(frames, t, i, n), u, j) ==
            if u == t && j == i then Some(TableEntry(frames[t][i], n))
            else if u == n then (if j < WORDS then Some(0) else None)
            else Word(frames, u, j)
  {
    WriteWordAt(frames[n := ZeroFrame()], t, i, TableEntry(frames[t][i], n), u, j);
  }

  /** The situation of get_next_lvl: entry i of the table t at path p is absent, frame n is free. */
  ghost predicate CanGrow(frames: seq<Frame>, top: nat, levels: nat, used: set<nat>, p: Path, t: nat, i: nat, n: nat) {
    && |p| + 1 < levels && Reaches(frames, top, p, t) && t < |frames| && i < |frames[t]| && t in used
    && Step(frames, t, i).None?
    && n < |frames| && n !in used && n < 0x100_0000_0000
  }

  /** In map b, exactly the path p + [i] has become a path to n, and only if b reaches t at p. */
  ghost predicate GrowEffect(frames: seq<Frame>, frames': seq<Frame>, b: nat, levels: nat, p: Path, t: nat, i: nat,
                             n: nat) {
    forall q: Path | |q| <= levels ::
      TableAt(frames', b, q) == if q == p + [i] && Reaches(frames, b, p, t) then Some(n) else TableAt(frames, b, q)
  }

  lemma ZeroWord()
    ensures !Present(0) && !Large(0)
  {
    LowSmall(0, 0);
    LowSmall(0, 7);
  }

  lemma GrowOwnPath(frames: seq<Frame>, top: nat, levels: nat, used: set<nat>, p: Path, t: nat, i: nat, n: nat, q: Path)
    requires Tree(frames, top, levels, used) && CanGrow(frames, top, levels, used, p, t, i, n) && |q| <= levels
    ensures TableAt(Grow(frames, t, i, n), top, q) == if q == p + [i] then Some(n) else TableAt(frames, top, q)
  {
    var z := frames[n := ZeroFrame()];
    var frames' := Grow(frames, t, i, n);
    ForeignTree(frames, z, top, levels, used, n);
    ForeignKeepsPath(frames, z, top, levels, n, p);
    if !(p + [i] <= q) {
      ForeignKeepsPath(frames, z, top, levels, n, q);
      WriteKeepsPath(z, top, levels, used, p, t, i, TableEntry(frames[t][i], n), q);
    } else {
      GrownEntry(frames, top, levels, used, p, t, i, n);
      if q != p + [i] {
        AbsentEntry(frames, top, p, t, i);
        NothingBelow(frames, top, p + [i], q);
        BelowNewTable(frames', top, p + [i], n, q);
      }
    }
  }

  lemma AbsentEntry(frames: seq<Frame>, top: nat, p: Path, t: nat, i: nat)
    requires Reaches(frames, top, p, t) && Step(frames, t, i).None?
    ensures TableAt(frames, top, p + [i]).None?
  {
    assert (p + [i])[..|p|] == p;
  }

  lemma GrownEntry(frames: seq<Frame>, top: nat, levels: nat, used: set<nat>, p: Path, t: nat, i: nat, n: nat)
    requires Tree(frames, top, levels, used) && CanGrow(frames, top, levels, used, p, t, i, n)
    ensures TableAt(Grow(frames, t, i, n), top, p + [i]) == Some(n)
    ensures forall j: nat :: Step(Grow(frames, t, i, n), n, j).None?
  {
    var z := frames[n := ZeroFrame()];
    ForeignTree(frames, z, top, levels, used, n);
    ForeignKeepsPath(frames, z, top, levels, n, p);
    WriteKeepsPath(z, top, levels, used, p, t, i, TableEntry(frames[t][i], n), p);
    assert (p + [i])[..|p|] == p;
    GrowWord(frames, t, i, n, t, i);
    TableEntryFields(frames[t][i], n);
    forall j: nat ensures Step(Grow(frames, t, i, n), n, j).None? {
      GrowWord(frames, t, i, n, n, j);
      ZeroWord();
    }
  }

  lemma BelowNewTable(frames: seq<Frame>, top: nat, p: Path, n: nat, q: Path)
    requires Reaches(frames, top, p, n) && (forall j: nat :: Step(frames, n, j).None?) && p <= q && p != q
    ensures TableAt(frames, top, q).None?
  {
    var r := q[..|p| + 1];
    assert r[..|p|] == p;
    NothingBelow(frames, top, r, q);
  }

  /** Rewriting a free frame leaves the tree as it is. */
  lemma ForeignTree(frames: seq<Frame>, frames': seq<Frame>, top: nat, levels: nat, used: set<nat>, n: nat)
    requires Tree(frames, top, levels, used) && n !in used && |frames'| == |frames|
    requires forall u: nat, j: nat | u != n :: Word(frames', u, j) == Word(frames, u, j)
    ensures Tree(frames', top, levels, used)
    ensures forall r: Path | |r| < levels :: !Reaches(frames, top, r, n)
  {
    forall r: Path | |r| < levels
      ensures TableAt(frames', top, r) == TableAt(frames, top, r)
    {
      ForeignKeepsPath(frames, frames', top, levels, n, r);
    }
    forall p: Path, f: nat | |p| < levels && Reaches(frames', top, p, f) ensures f < |frames'| && f in used {
      assert Reaches(frames, top, p, f);
    }
    forall p: Path, q: Path, f: nat | |p| < levels && |q| < levels && Reaches(frames', top, p, f)
    && Reaches(frames', top, q, f)
      ensures p == q
    {
      assert Reaches(frames, top, p, f) && Reaches(frames, top, q, f);
    }
  }

  // ----- All maps at once -------------------------------------------------------------------

  /** Every page map is a tree without large pages, and any two of them are apart. */
  ghost predicate System(frames: seq<Frame>, tops: set<nat>, levels: nat, used: set<nat>) {
    && (forall a | a in tops :: Tree(frames, a, levels, used) && NoLargePages(frames, a, levels))
    && (forall a, b | a in tops && b in tops && a != b :: Apart(frames, a, b, levels))
  }

  /** What a new table below map a does to the paths of any map b. */
  lemma GrowEverywhere(frames: seq<Frame>, tops: set<nat>, a: nat, b: nat, levels: nat, used: set<nat>, p: Path,
                       t: nat, i: nat, n: nat)
    requires System(frames, tops, levels, used) && a in tops && b in tops
    requires CanGrow(frames, a, levels, used, p, t, i, n)
    ensures GrowEffect(frames, Grow(frames, t, i, n), b, levels, p, t, i, n)
  {
    var frames' := Grow(frames, t, i, n);
    forall q: Path | |q| <= levels
      ensures TableAt(frames', b, q) == if q == p + [i] && Reaches(frames, b, p, t) then Some(n)
                else TableAt(frames, b, q)
    {
      if Reaches(frames, b, p, t) {
        GrowOwnPath(frames, b, levels, used, p, t, i, n, q);
      } else {
        GrowForeign(frames, a, b, levels, used, p, t, i, n, q);
      }
    }
  }

  lemma GrowForeign(frames: seq<Frame>, a: nat, b: nat, levels: nat, used: set<nat>, p: Path, t: nat, i: nat, n: nat,
                    q: Path)
    requires Tree(frames, b, levels, used) && a != b && Apart(frames, a, b, levels)
    requires CanGrow(frames, a, levels, used, p, t, i, n) && !Reaches(frames, b, p, t) && |q| <= levels
    ensures TableAt(Grow(frames, t, i, n), b, q) == TableAt(frames, b, q)
  {
    var z := frames[n := ZeroFrame()];
    var frames' := Grow(frames, t, i, n);
    NotReached(frames, a, b, levels, p, t);
    ForeignTree(frames, z, b, levels, used, n);
    forall u: nat, j: nat | u != t ensures Word(frames', u, j) == Word(z, u, j) {
      WriteWordAt(z, t, i, TableEntry(frames[t][i], n), u, j);
    }
    hide TableAt, Tree, Apart, Word, Grow;
    forall r: Path | |r| <= levels ensures TableAt(z, b, r) == TableAt(frames, b, r) {
      ForeignKeepsPath(frames, z, b, levels, n, r);
    }
    forall r: Path | |r| < levels ensures !Reaches(z, b, r, t) {
      assert !Reaches(frames, b, r, t);
    }
    ForeignKeepsPath(z, frames', b, levels, t, q);
  }

  lemma NotReached(frames: seq<Frame>, a: nat, b: nat, levels: nat, p: Path, t: nat)
    requires Apart(frames, a, b, levels) && |p| < levels && Reaches(frames, a, p, t) && !Reaches(frames, b, p, t)
    ensures forall r: Path | |r| < levels :: !Reaches(frames, b, r, t)
  {
    hide TableAt;
  }

  lemma GrowTree(frames: seq<Frame>, frames': seq<Frame>, b: nat, levels: nat, used: set<nat>, p: Path, t: nat, i: nat,
                 n: nat)
    requires Tree(frames, b, levels, used) && GrowEffect(frames, frames', b, levels, p, t, i, n)
    requires n !in used && n < |frames| == |frames'|
    ensures Tree(frames', b, levels, used + {n})
  {
    hide TableAt;
    forall q: Path, f: nat | |q| < levels && Reaches(frames', b, q, f) ensures f < |frames'| && f in used + {n} {
      assert f != n ==> Reaches(frames, b, q, f);
    }
    forall q: Path, r: Path, f: nat | |q| < levels && |r| < levels && Reaches(frames', b, q, f)
    && Reaches(frames', b, r, f)
      ensures q == r
    {
      OldOrNew(frames, frames', b, levels, used, p, t, i, n, q, f);
      OldOrNew(frames, frames', b, levels, used, p, t, i, n, r, f);
    }
  }

  /** After growing, a reached frame is either n, at p + [i], or was reached before by the same path. */
  lemma OldOrNew(frames: seq<Frame>, frames': seq<Frame>, b: nat, levels: nat, used: set<nat>, p: Path, t: nat, i: nat,
                 n: nat, q: Path, f: nat)
    requires Tree(frames, b, levels, used) && GrowEffect(frames, frames', b, levels, p, t, i, n) && n !in used
    requires |q| < levels && Reaches(frames', b, q, f)
    ensures if f == n then q == p + [i] && Reaches(frames, b, p, t) else Reaches(frames, b, q, f)
  {
    assert TableAt(frames', b, q) == if q == p + [i] && Reaches(frames, b, p, t) then Some(n)
      else TableAt(frames, b, q);
    assert !Reaches(frames, b, q, n);
  }

  lemma GrowApart(frames: seq<Frame>, frames': seq<Frame>, b: nat, c: nat, levels: nat, used: set<nat>, p: Path,
                  t: nat, i: nat, n: nat)
    requires Tree(frames, b, levels, used) && Tree(frames, c, levels, used) && Apart(frames, b, c, levels)
    requires GrowEffect(frames, frames', b, levels, p, t, i, n) && GrowEffect(frames, frames', c, levels, p, t, i, n)
    requires n !in used && |p| + 1 < levels && Step(frames, t, i).None?
    ensures Apart(frames', b, c, levels)
  {
    hide TableAt, Step;
    forall q: Path, r: Path, f: nat | |q| < levels && |r| < levels && Reaches(frames', b, q, f)
    && Reaches(frames', c, r, f)
      ensures q == r && q != [] && (|q| >= 2 ==> SameParent(frames', b, c, q))
    {
      OldOrNew(frames, frames', b, levels, used, p, t, i, n, q, f);
      OldOrNew(frames, frames', c, levels, used, p, t, i, n, r, f);
      if |q| >= 2 {
        var s := q[..|q| - 1];
        if f == n {
          assert s == p;
        } else {
          assert SameParent(frames, b, c, q);
          ParentReached(frames, b, q, f);
          if s == p + [i] && (Reaches(frames, b, p, t) || Reaches(frames, c, p, t)) {
            NoParentThere(frames, b, c, p, t, i, s);
          }
        }
        assert TableAt(frames', b, s) == TableAt(frames', c, s);
      }
    }
  }

  lemma ParentReached(frames: seq<Frame>, top: nat, q: Path, f: nat)
    requires q != [] && Reaches(frames, top, q, f)
    ensures TableAt(frames, top, q[..|q| - 1]).Some?
  {
  }

  lemma NoParentThere(frames: seq<Frame>, b: nat, c: nat, p: Path, t: nat, i: nat, s: Path)
    requires s == p + [i] && Step(frames, t, i).None? && (Reaches(frames, b, p, t) || Reaches(frames, c, p, t))
    requires TableAt(frames, b, s) == TableAt(frames, c, s)
    ensures TableAt(frames, b, s).None? && TableAt(frames, c, s).None?
  {
    if Reaches(frames, b, p, t) {
      AbsentEntry(frames, b, p, t, i);
    } else {
      AbsentEntry(frames, c, p, t, i);
    }
  }

  lemma GrowNoLarge(frames: seq<Frame>, b: nat, levels: nat, used: set<nat>, p: Path, t: nat, i: nat, n: nat)
    requires Tree(frames, b, levels, used) && NoLargePages(frames, b, levels) && n !in used
    requires t < |frames| && i < |frames[t]| && n < |frames| && n != t && n < 0x100_0000_0000
    requires GrowEffect(frames, Grow(frames, t, i, n), b, levels, p, t, i, n)
    ensures NoLargePages(Grow(frames, t, i, n), b, levels)
  {
    var frames' := Grow(frames, t, i, n);
    forall q: Path, f: nat, j: nat | |q| < levels - 1 && Reaches(frames', b, q, f) ensures !LargeAt(frames', f, j) {
      OldOrNew(frames, frames', b, levels, used, p, t, i, n, q, f);
      GrowWord(frames, t, i, n, f, j);
      ZeroWord();
      if f != n {
        assert !LargeAt(frames, f, j);
        TableEntryFields(frames[t][i], n);
      }
    }
  }

  lemma GrowOpen(frames: seq<Frame>, tops: set<nat>, a: nat, levels: nat, used: set<nat>, p: Path, t: nat, i: nat,
                 n: nat)
    requires System(frames, tops, levels, used) && a in tops && CanGrow(frames, a, levels, used, p, t, i, n)
    requires OpenTables(frames, tops, levels)
    ensures OpenTables(Grow(frames, t, i, n), tops, levels)
  {
    var frames' := Grow(frames, t, i, n);
    hide Grow, TableAt, GrowEffect;
    forall b, q: Path, f: nat, j: nat | b in tops && |q| < levels - 1 && Reaches(frames', b, q, f)
      ensures OpenAt(frames', f, j)
    {
      GrowEverywhere(frames, tops, a, b, levels, used, p, t, i, n);
      OldOrNew(frames, frames', b, levels, used, p, t, i, n, q, f);
      GrowWord(frames, t, i, n, f, j);
      ZeroWord();
      if f != n {
        assert OpenAt(frames, f, j);
        TableEntryFields(frames[t][i], n);
      }
    }
  }

  /** No mapping of any map changes when a table is added. */
  lemma GrowKeepsLeaves(frames: seq<Frame>, b: nat, levels: nat, used: set<nat>, p: Path, t: nat, i: nat, n: nat,
                        path: Path)
    requires Tree(frames, b, levels, used) && n !in used && |p| + 1 < levels && |path| == levels
    requires t < |frames| && i < |frames[t]| && n < |frames| && n != t && Step(frames, t, i).None?
    requires forall r: Path | |r| < levels && Reaches(frames, b, r, t) :: r == p
    requires GrowEffect(frames, Grow(frames, t, i, n), b, levels, p, t, i, n)
    ensures RawLeaf(Grow(frames, t, i, n), b, path) == RawLeaf(frames, b, path)
  {
    var frames' := Grow(frames, t, i, n);
    var s, j := path[..|path| - 1], path[|path| - 1];
    var now := TableAt(frames', b, s);
    if now.Some? {
      OldOrNew(frames, frames', b, levels, used, p, t, i, n, s, now.value);
      GrowWord(frames, t, i, n, now.value, j);
      ZeroWord();
      if now.value == n {
        AbsentEntry(frames, b, p, t, i);
      } else {
        assert now.value != t || s == p;
      }
    }
  }

  // ----- Writing a page entry -------------------------------------------------------------------

  /** The situation of mapMem: t is the last-level table at path p. */
  ghost predicate AtLeaf(frames: seq<Frame>, top: nat, levels: nat, p: Path, t: nat, i: nat) {
    |p| + 1 == levels && Reaches(frames, top, p, t) && t < |frames| && i < |frames[t]|
  }

  /** Writing a page entry moves no table of any map. */
  lemma LeafKeepsPaths(frames: seq<Frame>, tops: set<nat>, a: nat, b: nat, levels: nat, used: set<nat>, p: Path,
                       t: nat, i: nat, w: nat, q: Path)
    requires System(frames, tops, levels, used) && a in tops && b in tops && AtLeaf(frames, a, levels, p, t, i)
    requires |q| < levels
    ensures TableAt(WriteWord(frames, t, i, w), b, q) == TableAt(frames, b, q)
  {
    var frames' := WriteWord(frames, t, i, w);
    forall u: nat, j: nat | u != t ensures Word(frames', u, j) == Word(frames, u, j) {
      WriteWordAt(frames, t, i, w, u, j);
    }
    hide TableAt, Word, WriteWord;
    if Reaches(frames, b, p, t) {
      WriteKeepsPath(frames, b, levels, used, p, t, i, w, q);
    } else {
      NotReached(frames, a, b, levels, p, t);
      ForeignKeepsPath(frames, frames', b, levels, t, q);
    }
  }

  /** The page entry of map b after the write: the new word on the path of a, if b shares its last table. */
  lemma LeafEffect(frames: seq<Frame>, tops: set<nat>, a: nat, b: nat, levels: nat, used: set<nat>, p: Path, t: nat,
                   i: nat, w: nat, path: Path)
    requires System(frames, tops, levels, used) && a in tops && b in tops && AtLeaf(frames, a, levels, p, t, i)
    requires |path| == levels
    ensures RawLeaf(WriteWord(frames, t, i, w), b, path) ==
            if path == p + [i] && Reaches(frames, b, p, t) then w else RawLeaf(frames, b, path)
  {
    var s, j := path[..|path| - 1], path[|path| - 1];
    assert path == s + [j];
    LeafKeepsPaths(frames, tops, a, b, levels, used, p, t, i, w, s);
    var now := TableAt(frames, b, s);
    if now.Some? {
      WriteWordAt(frames, t, i, w, now.value, j);
      if now.value == t {
        assert Reaches(frames, b, s, t);
        SamePath(frames, tops, a, b, levels, used, p, s, t);
      }
    }
  }

  lemma SamePath(frames: seq<Frame>, tops: set<nat>, a: nat, b: nat, levels: nat, used: set<nat>, p: Path, q: Path,
                 t: nat)
    requires System(frames, tops, levels, used) && a in tops && b in tops && |p| < levels && |q| < levels
    requires Reaches(frames, a, p, t) && Reaches(frames, b, q, t)
    ensures p == q
  {
    hide TableAt;
    if a == b {
      assert Tree(frames, a, levels, used);
    } else {
      assert Apart(frames, a, b, levels);
    }
  }

  lemma LeafSystem(frames: seq<Frame>, tops: set<nat>, a: nat, levels: nat, used: set<nat>, p: Path, t: nat, i: nat,
                   w: nat)
    requires System(frames, tops, levels, used) && a in tops && AtLeaf(frames, a, levels, p, t, i)
    ensures System(WriteWord(frames, t, i, w), tops, levels, used)
  {
    var frames' := WriteWord(frames, t, i, w);
    forall b, q: Path | b in tops && |q| < levels ensures TableAt(frames', b, q) == TableAt(frames, b, q) {
      LeafKeepsPaths(frames, tops, a, b, levels, used, p, t, i, w, q);
    }
    forall b | b in tops ensures NoLargePages(frames', b, levels) {
      forall q: Path, f: nat, j: nat | |q| < levels - 1 && Reaches(frames', b, q, f) ensures !LargeAt(frames', f, j) {
        assert Reaches(frames, b, q, f) && !LargeAt(frames, f, j);
        if f == t {
          SamePath(frames, tops, a, b, levels, used, p, q, t);
        }
        WriteWordAt(frames, t, i, w, f, j);
      }
    }
    SystemSamePaths(frames, frames', tops, levels, used);
  }

  /** Writing a page entry opens or closes no table. */
  lemma LeafOpen(frames: seq<Frame>, tops: set<nat>, a: nat, levels: nat, used: set<nat>, p: Path, t: nat, i: nat,
                 w: nat)
    requires System(frames, tops, levels, used) && a in tops && AtLeaf(frames, a, levels, p, t, i)
    requires OpenTables(frames, tops, levels)
    ensures OpenTables(WriteWord(frames, t, i, w), tops, levels)
  {
    var frames' := WriteWord(frames, t, i, w);
    forall b, q: Path, f: nat, j: nat | b in tops && |q| < levels - 1 && Reaches(frames', b, q, f)
      ensures OpenAt(frames', f, j)
    {
      LeafKeepsPaths(frames, tops, a, b, levels, used, p, t, i, w, q);
      assert Reaches(frames, b, q, f) && OpenAt(frames, f, j);
      if f == t {
        SamePath(frames, tops, a, b, levels, used, p, q, t);
      }
      WriteWordAt(frames, t, i, w, f, j);
    }
  }

  /** Trees and sharing depend on the paths only. */
  lemma SystemSamePaths(frames: seq<Frame>, frames': seq<Frame>, tops: set<nat>, levels: nat, used: set<nat>)
    requires System(frames, tops, levels, used) && |frames'| == |frames|
    requires forall b, q: Path | b in tops && |q| < levels :: TableAt(frames', b, q) == TableAt(frames, b, q)
    requires forall b | b in tops :: NoLargePages(frames', b, levels)
    ensures System(frames', tops, levels, used)
  {
    forall b | b in tops ensures Tree(frames', b, levels, used) {
      SameTree(frames, frames', b, levels, used);
    }
    forall b, c | b in tops && c in tops && b != c ensures Apart(frames', b, c, levels) {
      SameApart(frames, frames', b, c, levels);
    }
  }

  lemma SameTree(frames: seq<Frame>, frames': seq<Frame>, b: nat, levels: nat, used: set<nat>)
    requires Tree(frames, b, levels, used) && |frames'| == |frames|
    requires forall q: Path | |q| < levels :: TableAt(frames', b, q) == TableAt(frames, b, q)
    ensures Tree(frames', b, levels, used)
  {
    hide TableAt;
    forall p: Path, f: nat | |p| < levels && Reaches(frames', b, p, f) ensures f < |frames'| && f in used {
      assert Reaches(frames, b, p, f);
    }
    forall p: Path, q: Path, f: nat | |p| < levels && |q| < levels && Reaches(frames', b, p, f)
    && Reaches(frames', b, q, f)
      ensures p == q
    {
      assert Reaches(frames, b, p, f) && Reaches(frames, b, q, f);
    }
  }

  lemma SameApart(frames: seq<Frame>, frames': seq<Frame>, b: nat, c: nat, levels: nat)
    requires Apart(frames, b, c, levels)
    requires forall q: Path | |q| < levels :: TableAt(frames', b, q) == TableAt(frames, b, q)
    requires forall q: Path | |q| < levels :: TableAt(frames', c, q) == TableAt(frames, c, q)
    ensures Apart(frames', b, c, levels)
  {
    hide TableAt;
    forall p: Path, q: Path, f: nat | |p| < levels && |q| < levels && Reaches(frames', b, p, f)
    && Reaches(frames', c, q, f)
      ensures p == q && p != [] && (|p| >= 2 ==> SameParent(frames', b, c, p))
    {
      assert Reaches(frames, b, p, f) && Reaches(frames, c, q, f);
      if |p| >= 2 {
        assert SameParent(frames, b, c, p);
      }
    }
  }

  // ----- One step down, for the whole system -----------------------------------------------------

  lemma GrowSystem(frames: seq<Frame>, tops: set<nat>, a: nat, levels: nat, used: set<nat>, p: Path, t: nat, i: nat,
                   n: nat)
    requires System(frames, tops, levels, used) && a in tops && CanGrow(frames, a, levels, used, p, t, i, n)
    ensures System(Grow(frames, t, i, n), tops, levels, used + {n})
  {
    var frames' := Grow(frames, t, i, n);
    forall b | b in tops ensures GrowEffect(frames, frames', b, levels, p, t, i, n) {
      GrowEverywhere(frames, tops, a, b, levels, used, p, t, i, n);
    }
    hide GrowEffect, Grow, TableAt;
    forall b | b in tops ensures Tree(frames', b, levels, used + {n}) && NoLargePages(frames', b, levels) {
      GrowTree(frames, frames', b, levels, used, p, t, i, n);
      GrowNoLarge(frames, b, levels, used, p, t, i, n);
    }
    forall b, c | b in tops && c in tops && b != c ensures Apart(frames', b, c, levels) {
      GrowApart(frames, frames', b, c, levels, used, p, t, i, n);
    }
  }

  lemma GrowLeaves(frames: seq<Frame>, tops: set<nat>, a: nat, b: nat, levels: nat, used: set<nat>, p: Path, t: nat,
                   i: nat, n: nat, path: Path)
    requires System(frames, tops, levels, used) && a in tops && b in tops
    requires CanGrow(frames, a, levels, used, p, t, i, n)
    requires |path| == levels
    ensures RawLeaf(Grow(frames, t, i, n), b, path) == RawLeaf(frames, b, path)
  {
    GrowEverywhere(frames, tops, a, b, levels, used, p, t, i, n);
    forall r: Path | |r| < levels && Reaches(frames, b, r, t) ensures r == p {
      SamePath(frames, tops, a, b, levels, used, p, r, t);
    }
    GrowKeepsLeaves(frames, b, levels, used, p, t, i, n, path);
  }

  // ----- Sharing ------------------------------------------------------------------------------------

  /** Maps a and b have the same present top-level entry at index i. */
  ghost predicate Shares(frames: seq<Frame>, a: nat, b: nat, i: nat) {
    Step(frames, a, i).Some? && Step(frames, a, i) == Step(frames, b, i)
  }

  lemma FirstStep(frames: seq<Frame>, top: nat, i: nat)
    ensures TableAt(frames, top, [i]) == Step(frames, top, i)
  {
    assert [i][..0] == [];
    assert TableAt(frames, top, []) == Some(top);
  }

  /** Below equal top-level entries both maps are the same. */
  lemma {:induction false} SharedBelow(frames: seq<Frame>, a: nat, b: nat, q: Path)
    requires q != [] && Step(frames, a, q[0]) == Step(frames, b, q[0])
    ensures TableAt(frames, a, q) == TableAt(frames, b, q)
    decreases |q|
  {
    if |q| == 1 {
      assert q == [q[0]];
      FirstStep(frames, a, q[0]);
      FirstStep(frames, b, q[0]);
    } else {
      SharedBelow(frames, a, b, q[..|q| - 1]);
    }
  }

  /** Maps that meet anywhere share the top-level entry above the meeting point. */
  lemma {:induction false} MeetingMeansSharing(frames: seq<Frame>, a: nat, b: nat, levels: nat, p: Path, t: nat)
    requires Apart(frames, a, b, levels) && |p| < levels && Reaches(frames, a, p, t) && Reaches(frames, b, p, t)
    ensures p != [] && Shares(frames, a, b, p[0])
    decreases |p|
  {
    if |p| == 1 {
      assert p == [p[0]];
      FirstStep(frames, a, p[0]);
      FirstStep(frames, b, p[0]);
    } else {
      assert |p| >= 2 && SameParent(frames, a, b, p);
      var r := p[..|p| - 1];
      var u := TableAt(frames, a, r);
      assert u.Some?;
      MeetingMeansSharing(frames, a, b, levels, r, u.value);
    }
  }

  // ----- How many tables a walk still has to add ------------------------------------------------------

  ghost function Missing(frames: seq<Frame>, top: nat, path: Path): nat {
    if path == [] then 0
    else Missing(frames, top, path[..|path| - 1]) + (if TableAt(frames, top, path).None? then 1 else 0)
  }

  lemma {:induction false} MissingAfterGrow(frames: seq<Frame>, frames': seq<Frame>, a: nat, levels: nat, p: Path,
                                            t: nat, i: nat, n: nat, q: Path)
    requires GrowEffect(frames, frames', a, levels, p, t, i, n) && Reaches(frames, a, p, t) && Step(frames, t, i).None?
    requires |q| <= levels
    ensures Missing(frames', a, q) == Missing(frames, a, q) - (if p + [i] <= q then 1 else 0)
    decreases |q|
  {
    if q != [] {
      var r := q[..|q| - 1];
      MissingAfterGrow(frames, frames', a, levels, p, t, i, n, r);
      if q == p + [i] {
        AbsentEntry(frames, a, p, t, i);
        assert !(p + [i] <= r);
      } else {
        assert p + [i] <= q <==> p + [i] <= r;
      }
    }
  }

  lemma {:induction false} MissingHere(frames: seq<Frame>, a: nat, p: Path, t: nat, i: nat, q: Path)
    requires Reaches(frames, a, p, t) && Step(frames, t, i).None? && p + [i] <= q
    ensures Missing(frames, a, q) > 0
    decreases |q|
  {
    if q == p + [i] {
      AbsentEntry(frames, a, p, t, i);
    } else {
      assert p + [i] <= q[..|q| - 1];
      MissingHere(frames, a, p, t, i, q[..|q| - 1]);
    }
  }

  /** On the path to an existing table nothing is missing. */
  lemma {:induction false} MissingNone(frames: seq<Frame>, a: nat, path: Path)
    requires TableAt(frames, a, path).Some?
    ensures Missing(frames, a, path) == 0
    decreases |path|
  {
    if path != [] {
      MissingNone(frames, a, path[..|path| - 1]);
    }
  }

  // ----- Copying a top-level table ----------------------------------------------------------------------

  /** clonePagemap: frame n becomes a copy of the top-level table src. */
  function Cloned(frames: seq<Frame>, src: nat, n: nat): (r: seq<Frame>)
    requires src < |frames| && n < |frames|
    ensures |r| == |frames|
  {
    frames[n := frames[src]]
  }

  lemma {:induction false} ClonePath(frames: seq<Frame>, src: nat, levels: nat, used: set<nat>, n: nat, q: Path)
    requires Tree(frames, src, levels, used) && src < |frames| && n < |frames| && n !in used && |q| <= levels
    ensures TableAt(Cloned(frames, src, n), src, q) == TableAt(frames, src, q)
    ensures q != [] ==> TableAt(Cloned(frames, src, n), n, q) == TableAt(frames, src, q)
    decreases |q|
  {
    var frames' := Cloned(frames, src, n);
    ForeignTree(frames, frames', src, levels, used, n);
    ForeignKeepsPath(frames, frames', src, levels, n, q);
    if |q| == 1 {
      assert q == [q[0]];
      FirstStep(frames', n, q[0]);
      FirstStep(frames, src, q[0]);
    } else if |q| >= 2 {
      var r := q[..|q| - 1];
      ClonePath(frames, src, levels, used, n, r);
      ForeignKeepsPath(frames, frames', src, levels, n, r);
    }
  }

  /** The clone translates every path as the original does; the other maps translate as before. */
  lemma CloneLeaves(frames: seq<Frame>, tops: set<nat>, src: nat, levels: nat, used: set<nat>, n: nat, path: Path)
    requires System(frames, tops, levels, used) && src in tops && src < |frames| && n < |frames| && n !in used
    requires |path| == levels >= 2
    ensures RawLeaf(Cloned(frames, src, n), n, path) == RawLeaf(frames, src, path)
    ensures forall b | b in tops :: RawLeaf(Cloned(frames, src, n), b, path) == RawLeaf(frames, b, path)
  {
    var frames' := Cloned(frames, src, n);
    var s := path[..|path| - 1];
    ClonePath(frames, src, levels, used, n, s);
    SlotOfUsed(frames, frames', src, levels, used, n, path);
    forall b | b in tops ensures RawLeaf(frames', b, path) == RawLeaf(frames, b, path) {
      ForeignTree(frames, frames', b, levels, used, n);
      ForeignKeepsPath(frames, frames', b, levels, n, s);
      SlotOfUsed(frames, frames', b, levels, used, n, path);
    }
  }

  /** The last-level slot of a map's path lies in a table, hence not in the rewritten frame n. */
  lemma SlotOfUsed(frames: seq<Frame>, frames': seq<Frame>, b: nat, levels: nat, used: set<nat>, n: nat, path: Path)
    requires Tree(frames, b, levels, used) && n !in used && |path| == levels >= 1
    requires forall u: nat, j: nat | u != n :: Word(frames', u, j) == Word(frames, u, j)
    ensures var t := TableAt(frames, b, path[..|path| - 1]);
            t.Some? ==> Word(frames', t.value, path[|path| - 1]) == Word(frames, t.value, path[|path| - 1])
  {
    var t := TableAt(frames, b, path[..|path| - 1]);
    if t.Some? {
      assert Reaches(frames, b, path[..|path| - 1], t.value);
    }
  }

  /** What the clone reaches is the clone itself or what the original reaches below its top. */
  lemma CloneReaches(frames: seq<Frame>, src: nat, levels: nat, used: set<nat>, n: nat, q: Path, f: nat)
    requires Tree(frames, src, levels, used) && src < |frames| && n < |frames| && n !in used && |q| < levels
    requires Reaches(Cloned(frames, src, n), n, q, f)
    ensures if q == [] then f == n else Reaches(frames, src, q, f) && f in used
  {
    if q != [] {
      ClonePath(frames, src, levels, used, n, q);
    }
  }

  lemma CloneTree(frames: seq<Frame>, src: nat, levels: nat, used: set<nat>, n: nat)
    requires Tree(frames, src, levels, used) && NoLargePages(frames, src, levels)
    requires src < |frames| && n < |frames| && n !in used && levels >= 2
    ensures Tree(Cloned(frames, src, n), n, levels, used + {n}) && NoLargePages(Cloned(frames, src, n), n, levels)
  {
    var frames' := Cloned(frames, src, n);
    forall q: Path, f: nat | |q| < levels && Reaches(frames', n, q, f) ensures f < |frames'| && f in used + {n} {
      CloneReaches(frames, src, levels, used, n, q, f);
    }
    forall q: Path, r: Path, f: nat | |q| < levels && |r| < levels && Reaches(frames', n, q, f)
    && Reaches(frames', n, r, f)
      ensures q == r
    {
      CloneReaches(frames, src, levels, used, n, q, f);
      CloneReaches(frames, src, levels, used, n, r, f);
    }
    forall q: Path, f: nat, j: nat | |q| < levels - 1 && Reaches(frames', n, q, f) ensures !LargeAt(frames', f, j) {
      CloneReaches(frames, src, levels, used, n, q, f);
      if q == [] {
        assert Reaches(frames, src, [], src) && !LargeAt(frames, src, j);
      } else {
        assert !LargeAt(frames, f, j);
      }
    }
  }

  /** A frame that the clone and another map both reach was reached by the original, by the same path. */
  lemma CloneMeeting(frames: seq<Frame>, tops: set<nat>, src: nat, b: nat, levels: nat, used: set<nat>, n: nat,
                     q: Path, r: Path, f: nat)
    requires System(frames, tops, levels, used) && src in tops && b in tops
    requires src < |frames| && n < |frames| && n !in used && |q| < levels && |r| < levels
    requires Reaches(Cloned(frames, src, n), n, q, f) && Reaches(Cloned(frames, src, n), b, r, f)
    ensures q == r && q != [] && Reaches(frames, src, q, f) && Reaches(frames, b, q, f)
  {
    OldMapReaches(frames, Cloned(frames, src, n), b, levels, used, n, r, f);
    CloneReaches(frames, src, levels, used, n, q, f);
    hide TableAt;
    SamePath(frames, tops, src, b, levels, used, q, r, f);
  }

  lemma OldMapReaches(frames: seq<Frame>, frames': seq<Frame>, b: nat, levels: nat, used: set<nat>, n: nat, r: Path,
                      f: nat)
    requires Tree(frames, b, levels, used) && n !in used && |frames'| == |frames| && |r| < levels
    requires forall u: nat, j: nat | u != n :: Word(frames', u, j) == Word(frames, u, j)
    requires Reaches(frames', b, r, f)
    ensures Reaches(frames, b, r, f) && f != n
  {
    ForeignTree(frames, frames', b, levels, used, n);
    ForeignKeepsPath(frames, frames', b, levels, n, r);
  }

  lemma CloneParents(frames: seq<Frame>, tops: set<nat>, src: nat, b: nat, levels: nat, used: set<nat>, n: nat,
                     q: Path, f: nat)
    requires System(frames, tops, levels, used) && src in tops && b in tops
    requires src < |frames| && n < |frames| && n !in used && 2 <= |q| < levels
    requires Reaches(frames, src, q, f) && Reaches(frames, b, q, f)
    ensures SameParent(Cloned(frames, src, n), n, b, q)
  {
    var frames' := Cloned(frames, src, n);
    var s := q[..|q| - 1];
    ForeignTree(frames, frames', b, levels, used, n);
    ForeignKeepsPath(frames, frames', b, levels, n, s);
    ClonePath(frames, src, levels, used, n, s);
    hide TableAt;
    assert src != b ==> Apart(frames, src, b, levels) && SameParent(frames, src, b, q);
  }

  lemma CloneApart(frames: seq<Frame>, tops: set<nat>, src: nat, b: nat, levels: nat, used: set<nat>, n: nat)
    requires System(frames, tops, levels, used) && src in tops && b in tops
    requires src < |frames| && n < |frames| && n !in used
    ensures Apart(Cloned(frames, src, n), n, b, levels) && Apart(Cloned(frames, src, n), b, n, levels)
  {
    var frames' := Cloned(frames, src, n);
    hide TableAt, Cloned;
    forall q: Path, r: Path, f: nat | |q| < levels && |r| < levels && Reaches(frames', n, q, f)
    && Reaches(frames', b, r, f)
      ensures q == r && q != [] && (|q| >= 2 ==> SameParent(frames', n, b, q) && SameParent(frames', b, n, q))
    {
      CloneMeeting(frames, tops, src, b, levels, used, n, q, r, f);
      if |q| >= 2 {
        CloneParents(frames, tops, src, b, levels, used, n, q, f);
      }
    }
  }

  lemma CloneSystem(frames: seq<Frame>, tops: set<nat>, src: nat, levels: nat, used: set<nat>, n: nat)
    requires System(frames, tops, levels, used) && src in tops && levels >= 2
    requires src < |frames| && n < |frames| && n !in used
    ensures System(Cloned(frames, src, n), tops + {n}, levels, used + {n})
  {
    var frames' := Cloned(frames, src, n);
    CloneTree(frames, src, levels, used, n);
    forall b | b in tops ensures Tree(frames', b, levels, used + {n}) && NoLargePages(frames', b, levels) {
      OldMapAfterClone(frames, frames', b, levels, used, n);
    }
    forall b, c | b in tops + {n} && c in tops + {n} && b != c ensures Apart(frames', b, c, levels) {
      if b == n {
        CloneApart(frames, tops, src, c, levels, used, n);
      } else if c == n {
        CloneApart(frames, tops, src, b, levels, used, n);
      } else {
        ForeignTree(frames, frames', b, levels, used, n);
        ForeignTree(frames, frames', c, levels, used, n);
        forall q: Path | |q| < levels
          ensures TableAt(frames', b, q) == TableAt(frames, b, q) && TableAt(frames', c, q) == TableAt(frames, c, q)
        {
          ForeignKeepsPath(frames, frames', b, levels, n, q);
          ForeignKeepsPath(frames, frames', c, levels, n, q);
        }
        SameApart(frames, frames', b, c, levels);
      }
    }
  }

  lemma OldMapAfterClone(frames: seq<Frame>, frames': seq<Frame>, b: nat, levels: nat, used: set<nat>, n: nat)
    requires Tree(frames, b, levels, used) && NoLargePages(frames, b, levels) && n !in used && |frames'| == |frames|
    requires forall u: nat, j: nat | u != n :: Word(frames', u, j) == Word(frames, u, j)
    ensures Tree(frames', b, levels, used + {n}) && NoLargePages(frames', b, levels)
  {
    ForeignTree(frames, frames', b, levels, used, n);
    forall q: Path, f: nat, j: nat | |q| < levels - 1 && Reaches(frames', b, q, f) ensures !LargeAt(frames', f, j) {
      ForeignKeepsPath(frames, frames', b, levels, n, q);
      assert Reaches(frames, b, q, f) && !LargeAt(frames, f, j) && f != n;
    }
  }

  /** Adding a table below a does not change which maps share which top-level entries. */
  lemma GrowShares(frames: seq<Frame>, tops: set<nat>, a: nat, b: nat, c: nat, levels: nat, used: set<nat>, p: Path,
                   t: nat, i: nat, n: nat, j: nat)
    requires System(frames, tops, levels, used) && a in tops && b in tops && c in tops && b != c && levels >= 2
    requires CanGrow(frames, a, levels, used, p, t, i, n)
    ensures Shares(Grow(frames, t, i, n), b, c, j) <==> Shares(frames, b, c, j)
  {
    var frames' := Grow(frames, t, i, n);
    GrowEverywhere(frames, tops, a, b, levels, used, p, t, i, n);
    GrowEverywhere(frames, tops, a, c, levels, used, p, t, i, n);
    FirstStep(frames, b, j);
    FirstStep(frames, c, j);
    FirstStep(frames', b, j);
    FirstStep(frames', c, j);
    if [j] == p + [i] {
      assert p == [] && t == a && i == j;
      AbsentEntry(frames, a, p, t, i);
      assert Tree(frames, b, levels, used) && Tree(frames, c, levels, used);
      assert !Reaches(frames, b, [j], n) && !Reaches(frames, c, [j], n);
    }
  }

  /** Two maps reach the same last-level table exactly when they share the top-level entry above it. */
  lemma SharesIffReaches(frames: seq<Frame>, a: nat, b: nat, levels: nat, p: Path, t: nat)
    requires Apart(frames, a, b, levels) && 0 < |p| < levels && Reaches(frames, a, p, t)
    ensures Reaches(frames, b, p, t) <==> Shares(frames, a, b, p[0])
  {
    if Reaches(frames, b, p, t) {
      MeetingMeansSharing(frames, a, b, levels, p, t);
    }
    if Shares(frames, a, b, p[0]) {
      SharedBelow(frames, a, b, p);
    }
  }
}
