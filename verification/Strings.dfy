/** Searching, splitting and in-place removal in NUL-terminated strings. */
module Strings {
  const NUL: char := '\0'

  // ----- Occurrences ------------------------------------------------------------------------

  /** Index of the first occurrence of d in s, or -1. */
  function First(s: string, d: string): (k: int)
    ensures -1 <= k <= |s| && (k >= 0 ==> k + |d| <= |s|)
  {
    if d <= s then 0
    else if s == [] then -1
    else
      var k := First(s[1..], d);
      if k < 0 then -1 else k + 1
  }

  /** d occurs in s at index k, and at no smaller one. */
  ghost predicate FirstAt(s: string, d: string, k: nat) {
    k <= |s| && d <= s[k..] && forall j: nat | j < k :: !(d <= s[j..])
  }

  /** First finds what its name says: an occurrence if and only if there is one, and the leftmost. */
  lemma {:induction false} FirstMeaning(s: string, d: string)
    ensures First(s, d) >= 0 ==> FirstAt(s, d, First(s, d))
    ensures First(s, d) < 0 ==> forall j: nat | j <= |s| :: !(d <= s[j..])
  {
    if !(d <= s) && s != [] {
      FirstMeaning(s[1..], d);
      forall j: nat | j <= |s| ensures d <= s[j..] <==> j > 0 && d <= s[1..][j - 1..] {
        if j > 0 {
          assert s[j..] == s[1..][j - 1..];
        } else {
          assert s[0..] == s;
        }
      }
    } else {
      assert s[0..] == s;
    }
  }

  lemma FirstUnique(s: string, d: string, k: nat)
    requires FirstAt(s, d, k)
    ensures First(s, d) == k
  {
    FirstMeaning(s, d);
  }

  // ----- Words --------------------------------------------------------------------------------

  /** The pieces of s between the occurrences of d, found from the left without overlap. */
  function Words(s: string, d: string): (words: seq<string>)
    requires d != []
    ensures words != []
    decreases |s|
  {
    var k := First(s, d);
    if k < 0 then [s] else [s[..k]] + Words(s[k + |d|..], d)
  }

  function Joined(words: seq<string>, d: string): string
    requires words != []
  {
    if |words| == 1 then words[0] else words[0] + d + Joined(words[1..], d)
  }

  function Concatenated(words: seq<string>): string {
    if words == [] then [] else words[0] + Concatenated(words[1..])
  }

  /** s without the occurrences of d that Words cuts at. */
  function Removed(s: string, d: string): string
    requires d != []
    decreases |s|
  {
    var k := First(s, d);
    if k < 0 then s else s[..k] + Removed(s[k + |d|..], d)
  }

  /** Every word but the last ends where the delimiter occurs first behind its start; the last one holds none. */
  lemma {:induction false} WordsGreedy(s: string, d: string, i: nat)
    requires d != [] && i < |Words(s, d)|
    ensures var words := Words(s, d);
            var rest := Joined(words[i..], d);
            if i < |words| - 1 then FirstAt(rest, d, |words[i]|) && rest[..|words[i]|] == words[i]
            else rest == words[i] && First(rest, d) < 0
    decreases |s|
  {
    var k := First(s, d);
    FirstMeaning(s, d);
    JoinWords(s, d);
    var words := Words(s, d);
    if i == 0 {
      assert words[0..] == words;
    } else {
      var rest := s[k + |d|..];
      assert words[1..] == Words(rest, d);
      assert words[i..] == Words(rest, d)[i - 1..];
      hide First, Words;
      WordsGreedy(rest, d, i - 1);
    }
  }

  /** The words joined with the delimiter give the string back. */
  lemma {:induction false} JoinWords(s: string, d: string)
    requires d != []
    ensures Joined(Words(s, d), d) == s
    decreases |s|
  {
    var k := First(s, d);
    if k >= 0 {
      FirstMeaning(s, d);
      var rest := s[k + |d|..];
      JoinWords(rest, d);
      assert Words(s, d)[1..] == Words(rest, d);
      CutAt(s, d, k);
    }
  }

  lemma CutAt(s: string, d: string, k: nat)
    requires k + |d| <= |s| && d <= s[k..]
    ensures s == s[..k] + d + s[k + |d|..]
  {
    assert s[k..][..|d|] == d;
    assert s[k..][|d|..] == s[k + |d|..];
  }

  /** No word holds the delimiter. */
  lemma {:induction false} WordsFree(s: string, d: string, i: nat)
    requires d != [] && i < |Words(s, d)|
    ensures First(Words(s, d)[i], d) < 0
    decreases |s|
  {
    hide First, FirstAt;
    var k := First(s, d);
    if k >= 0 {
      FirstMeaning(s, d);
      var words := Words(s[k + |d|..], d);
      assert Words(s, d) == [s[..k]] + words;
      hide Words;
      if i == 0 {
        NotBefore(s, d, k);
      } else {
        assert Words(s, d)[i] == words[i - 1];
        WordsFree(s[k + |d|..], d, i - 1);
      }
    }
  }

  lemma NotBefore(s: string, d: string, k: nat)
    requires FirstAt(s, d, k) && d != []
    ensures First(s[..k], d) < 0
  {
    FirstMeaning(s[..k], d);
    forall j: nat | j < k ensures !(d <= s[..k][j..]) {
      assert s[..k][j..] <= s[j..];
    }
  }

  lemma {:induction false} RemovedIsConcatenated(s: string, d: string)
    requires d != []
    ensures Removed(s, d) == Concatenated(Words(s, d))
    decreases |s|
  {
    hide First;
    var k := First(s, d);
    if k >= 0 {
      RemovedIsConcatenated(s[k + |d|..], d);
      ConcatenatedMore(s[..k], Words(s[k + |d|..], d));
    } else {
      ConcatenatedMore(s, []);
    }
  }

  lemma ConcatenatedMore(word: string, rest: seq<string>)
    ensures Concatenated([word] + rest) == word + Concatenated(rest)
  {
    assert ([word] + rest)[1..] == rest;
  }

  // ----- Strings in memory -----------------------------------------------------------------------

  /** The string that starts at index `at` of the buffer ends with the NUL at index end. */
  ghost predicate StringAt(m: seq<char>, at: nat, end: nat) {
    at <= end < |m| && m[end] == NUL && forall x | at <= x < end :: m[x] != NUL
  }

  /** strstr on the string at index `at`; -1 stands for a null pointer. */
  method StrStr(m: array<char>, at: nat, sub: string, ghost end: nat) returns (r: int)
    requires StringAt(m[..], at, end) && NUL !in sub
    ensures r == -1 || at <= r
    ensures First(m[at..end], sub) == if r == -1 then -1 else r - at
  {
    var str, a, b := at, at, 0;
    ghost var s := m[at..end];
    while true
      invariant at <= str <= a <= end && 0 <= b <= |sub| && a == str + b
      invariant m[str..a] == sub[..b]
      invariant forall j: nat | j < str - at :: !(sub <= s[j..])
      decreases end - str, |sub| - b
    {
      if b == |sub| {
        SliceOf(m[..], at, end, str, a);
        FirstUnique(s, sub, str - at);
        return str;
      }
      if m[a] == NUL {
        NoRoom(s, sub, str - at);
        return -1;
      }
      if m[a] != sub[b] {
        assert !(sub <= s[str - at..]) by {
          assert s[str - at..][b] == m[a];
        }
        str := str + 1;
        a, b := str, 0;
      } else {
        a, b := a + 1, b + 1;
      }
    }
  }

  lemma SliceOf(m: seq<char>, at: nat, end: nat, i: nat, k: nat)
    requires at <= i <= k <= end <= |m|
    ensures m[at..end][i - at..][..k - i] == m[i..k]
  {
  }

  /** What is left of the string is shorter than the pattern. */
  lemma NoRoom(s: string, sub: string, k: nat)
    requires k <= |s| && |s| - k < |sub| && forall j: nat | j < k :: !(sub <= s[j..])
    ensures First(s, sub) == -1
  {
    FirstMeaning(s, sub);
  }

  // ----- Removal in place ---------------------------------------------------------------------------

  /** The n characters from p on, moved down to q. */
  function Shifted(m: seq<char>, q: nat, p: nat, n: nat): (r: seq<char>)
    requires q <= p && p + n <= |m|
    ensures |r| == |m|
  {
    m[..q] + m[p..p + n] + m[q + n..]
  }

  lemma ShiftNone(m: seq<char>, q: nat, p: nat)
    requires q <= p <= |m|
    ensures Shifted(m, q, p, 0) == m
  {
  }

  lemma ShiftMore(m: seq<char>, q: nat, p: nat, n: nat)
    requires q <= p && p + n < |m|
    ensures Shifted(m, q, p, n)[p + n] == m[p + n]
    ensures Shifted(m, q, p, n)[q + n := m[p + n]] == Shifted(m, q, p, n + 1)
  {
  }

  /** The inner copy loop of strrm: the characters [p, r) move down to q. */
  method MoveDown(m: array<char>, q: nat, p: nat, r: nat) returns (q': nat)
    requires q <= p <= r <= m.Length
    modifies m
    ensures q' == q + (r - p) && m[..] == Shifted(old(m[..]), q, p, r - p)
  {
    hide Shifted;
    var i := p;
    q' := q;
    ShiftNone(m[..], q, p);
    while i < r
      invariant p <= i <= r && q' == q + (i - p) && m[..] == Shifted(old(m[..]), q, p, i - p)
      decreases r - i
    {
      ShiftMore(old(m[..]), q, p, i - p);
      m[q'] := m[i];
      q', i := q' + 1, i + 1;
    }
  }

  /** The last loop of strrm: the rest of the string, with its NUL, moves down to q. */
  method MoveRest(m: array<char>, q: nat, p: nat, ghost end: nat)
    requires q <= p && StringAt(m[..], p, end)
    modifies m
    ensures m[..] == Shifted(old(m[..]), q, p, end - p + 1)
  {
    hide Shifted;
    var i, j, c := p, q, ' ';
    ghost var m0 := m[..];
    ShiftNone(m0, q, p);
    while c != NUL
      invariant p <= i <= end + 1 && j == q + (i - p) && m[..] == Shifted(m0, q, p, i - p)
      invariant c == NUL <==> i == end + 1
      decreases end + 1 - i
    {
      ShiftMore(m0, q, p, i - p);
      c := m[i];
      m[j] := c;
      i, j := i + 1, j + 1;
    }
  }

  /** The state of strrm: q characters are done, the rest from p on is as it was. */
  ghost predicate Halfway(m0: seq<char>, m: seq<char>, end: nat, sub: string, q: nat, p: nat)
    requires end <= |m0| && sub != []
  {
    && q <= p <= end && |m| == |m0| && m[p..] == m0[p..]
    && Done(m[..q], m0[p..end], m0[..end], sub)
  }

  /** What is done and the removal from the rest make the removal from the whole. */
  ghost predicate Done(done: string, rest: string, all: string, sub: string)
    requires sub != []
  {
    done + Removed(rest, sub) == Removed(all, sub)
  }

  lemma HalfwayStart(m0: seq<char>, end: nat, sub: string, r: nat)
    requires end <= |m0| && sub != [] && First(m0[..end], sub) == r
    ensures Halfway(m0, m0, end, sub, r, r + |sub|)
  {
    hide First, Removed;
    RemovedStep(m0[..end], sub, r);
    assert m0[..end][..r] == m0[..r] && m0[..end][r + |sub|..] == m0[r + |sub|..end];
  }

  lemma RemovedStep(s: string, d: string, k: nat)
    requires d != [] && First(s, d) == k
    ensures k + |d| <= |s| && Removed(s, d) == s[..k] + Removed(s[k + |d|..], d)
  {
    hide First;
  }

  lemma HalfwayStep(m0: seq<char>, m: seq<char>, end: nat, sub: string, q: nat, p: nat, r: nat)
    requires end <= |m0| && sub != [] && Halfway(m0, m, end, sub, q, p) && p <= r && First(m0[p..end], sub) == r - p
    ensures r + |sub| <= end && Halfway(m0, Shifted(m, q, p, r - p), end, sub, q + (r - p), r + |sub|)
  {
    hide First, Shifted, Done;
    FoundInside(m0, p, end, sub, r);
    StepTail(m0, m, q, p, r, |sub|);
    DoneStep(m[..q], m0[p..end], m0[..end], sub, r - p);
    Slices(m0, p, r, r + |sub|, end);
  }

  lemma FoundInside(m0: seq<char>, p: nat, end: nat, sub: string, r: nat)
    requires p <= r && p <= end <= |m0| && First(m0[p..end], sub) == r - p
    ensures r + |sub| <= end
  {
    hide First;
  }

  lemma StepTail(m0: seq<char>, m: seq<char>, q: nat, p: nat, r: nat, n: nat)
    requires |m| == |m0| && q <= p <= r && r + n <= |m| && m[p..] == m0[p..]
    ensures Shifted(m, q, p, r - p)[..q + (r - p)] == m[..q] + m0[p..r]
    ensures Shifted(m, q, p, r - p)[r + n..] == m0[r + n..]
  {
    hide Shifted;
    ShiftedParts(m0, m, q, p, r - p);
    Drop(Shifted(m, q, p, r - p), r, n);
    Drop(m0, r, n);
  }

  lemma DoneStep(done: string, rest: string, all: string, sub: string, k: nat)
    requires sub != [] && Done(done, rest, all, sub) && First(rest, sub) == k
    ensures k + |sub| <= |rest| && Done(done + rest[..k], rest[k + |sub|..], all, sub)
  {
    hide First, Removed;
    RemovedStep(rest, sub, k);
    Associates(done, rest[..k], Removed(rest[k + |sub|..], sub));
  }

  lemma Slices(m: seq<char>, a: nat, b: nat, c: nat, d: nat)
    requires a <= b <= c <= d <= |m|
    ensures m[a..d][..b - a] == m[a..b] && m[a..d][c - a..] == m[c..d]
  {
  }

  lemma Drop(m: seq<char>, a: nat, n: nat)
    requires a + n <= |m|
    ensures m[a..][n..] == m[a + n..]
  {
  }

  lemma Associates(a: string, b: string, c: string)
    ensures (a + b) + c == a + (b + c)
  {
  }

  lemma ShiftedParts(m0: seq<char>, m: seq<char>, q: nat, p: nat, n: nat)
    requires |m| == |m0| && q <= p && p + n <= |m| && m[p..] == m0[p..]
    ensures Shifted(m, q, p, n)[..q + n] == m[..q] + m0[p..p + n]
    ensures Shifted(m, q, p, n)[p + n..] == m0[p + n..]
  {
    forall x | p <= x < |m| ensures m[x] == m0[x] {
      assert m[x] == m[p..][x - p];
    }
  }

  lemma HalfwayEnd(m0: seq<char>, m: seq<char>, end: nat, sub: string, q: nat, p: nat)
    requires sub != [] && NUL !in sub && StringAt(m0, 0, end) && Halfway(m0, m, end, sub, q, p)
    requires First(m0[p..end], sub) < 0
    ensures var text := Removed(m0[..end], sub);
            var m' := Shifted(m, q, p, end - p + 1);
            |text| <= end && m'[..|text|] == text && StringAt(m', 0, |text|) && m'[end..] == m0[end..]
  {
    hide First, Removed;
    var text := Removed(m0[..end], sub);
    var m' := Shifted(m, q, p, end - p + 1);
    RemovedNothing(m0[p..end], sub);
    RemovedPlain(m0[..end], sub);
    ShiftedParts(m0, m, q, p, end - p + 1);
    assert m0[p..end + 1] == m0[p..end] + [NUL];
    hide Shifted;
    assert m'[..|text| + 1] == text + [NUL];
    LastChar(m', text);
    EndStays(m0, m, q, p, end);
  }

  lemma LastChar(m: seq<char>, text: string)
    requires |text| < |m| && m[..|text| + 1] == text + [NUL] && NUL !in text
    ensures m[..|text|] == text && StringAt(m, 0, |text|)
  {
    assert m[..|text|] == m[..|text| + 1][..|text|];
    assert m[|text|] == m[..|text| + 1][|text|];
    forall x | 0 <= x < |text| ensures m[x] != NUL {
      assert m[x] == text[x];
    }
  }

  lemma EndStays(m0: seq<char>, m: seq<char>, q: nat, p: nat, end: nat)
    requires |m| == |m0| && q <= p <= end < |m| && m[p..] == m0[p..]
    requires Shifted(m, q, p, end - p + 1)[end + 1..] == m0[end + 1..]
    ensures Shifted(m, q, p, end - p + 1)[end..] == m0[end..]
  {
    assert m[end] == m[p..][end - p] == m0[end];
    assert Shifted(m, q, p, end - p + 1)[end] == m[end];
    hide Shifted;
    assert m0[end..] == [m0[end]] + m0[end + 1..];
  }

  /** Removal makes no new NUL. */
  lemma {:induction false} RemovedPlain(s: string, d: string)
    requires d != [] && NUL !in s
    ensures NUL !in Removed(s, d)
    decreases |s|
  {
    hide First;
    var k := First(s, d);
    if k >= 0 {
      RemovedStep(s, d, k);
      RemovedPlain(s[k + |d|..], d);
    }
  }

  /** strrm: the string at index 0 becomes the same string without the occurrences of sub. */
  method StrRm(m: array<char>, sub: string, ghost end: nat)
    requires StringAt(m[..], 0, end) && NUL !in sub
    modifies m
    ensures sub == [] ==> m[..] == old(m[..])
    ensures sub != [] ==>
              var text := Removed(old(m[..end]), sub);
              |text| <= end && StringAt(m[..], 0, |text|) && m[..|text|] == text
    ensures m[end..] == old(m[end..])
  {
    hide Removed, Shifted, Halfway, First;
    if sub == [] {
      return;
    }
    ghost var m0 := m[..];
    var r := StrStr(m, 0, sub, end);
    assert m[0..end] == m0[..end] == m[..end];
    if r == -1 {
      RemovedNothing(m0[..end], sub);
      return;
    }
    var q: nat, len := r, |sub|;
    HalfwayStart(m0, end, sub, r);
    var p: nat := r + len;
    SuffixString(m0, m[..], end, sub, q, p);
    r := StrStr(m, p, sub, end);
    while r != -1
      invariant Halfway(m0, m[..], end, sub, q, p) && q <= p <= end
      invariant First(m0[p..end], sub) == if r == -1 then -1 else r - p
      invariant r == -1 || p <= r
      decreases end - p
    {
      HalfwayStep(m0, m[..], end, sub, q, p, r);
      q := MoveDown(m, q, p, r);
      p := r + len;
      SuffixString(m0, m[..], end, sub, q, p);
      r := StrStr(m, p, sub, end);
    }
    SuffixString(m0, m[..], end, sub, q, p);
    HalfwayEnd(m0, m[..], end, sub, q, p);
    MoveRest(m, q, p, end);
  }

  /** What is still to be read is a string, and the one it was at the start. */
  lemma SuffixString(m0: seq<char>, m: seq<char>, end: nat, sub: string, q: nat, p: nat)
    requires sub != [] && StringAt(m0, 0, end) && Halfway(m0, m, end, sub, q, p)
    ensures StringAt(m, p, end) && m[p..end] == m0[p..end] && q <= p
  {
    forall x | p <= x < |m| ensures m[x] == m0[x] {
      assert m[x] == m[p..][x - p];
    }
  }

  lemma RemovedNothing(s: string, d: string)
    requires d != [] && First(s, d) < 0
    ensures Removed(s, d) == s
  {
  }

  // ----- Splitting ------------------------------------------------------------------------------------

  lemma WordsStep(s: string, d: string, k: nat)
    requires d != [] && First(s, d) == k
    ensures k + |d| <= |s| && Words(s, d) == [s[..k]] + Words(s[k + |d|..], d)
  {
    hide First;
  }

  lemma WordsLast(s: string, d: string)
    requires d != [] && First(s, d) < 0
    ensures Words(s, d) == [s]
  {
    hide First;
  }

  /** The first loop of _strsplit. */
  method CountWords(m: array<char>, delim: string, ghost end: nat) returns (nb: nat)
    requires StringAt(m[..], 0, end) && delim != [] && NUL !in delim
    ensures nb == |Words(m[..end], delim)|
  {
    hide First, Words;
    nb := 1;
    var at: nat := 0;
    assert m[0..end] == m[..end];
    var r := StrStr(m, at, delim, end);
    while r != -1
      invariant at <= end && (r == -1 || at <= r)
      invariant First(m[at..end], delim) == if r == -1 then -1 else r - at
      invariant nb - 1 + |Words(m[at..end], delim)| == |Words(m[..end], delim)|
      decreases end - at
    {
      FoundInside(m[..], at, end, delim, r);
      WordsStep(m[at..end], delim, r - at);
      assert m[at..end][r - at + |delim|..] == m[r + |delim|..end];
      at := r + |delim|;
      nb := nb + 1;
      r := StrStr(m, at, delim, end);
    }
    WordsLast(m[at..end], delim);
  }

  /** The string at index `at` is the word. */
  ghost predicate Holds(m: seq<char>, at: nat, word: string) {
    StringAt(m, at, at + |word|) && m[at..at + |word|] == word
  }

  /**
   The state of _strsplit's second loop: the words before index `at` are cut off,
   the last start is `at`, and from there on the copy is still as it was.
   */
  ghost predicate Cut(m0: seq<char>, m: seq<char>, end: nat, delim: string, starts: seq<nat>, done: seq<string>,
                      at: nat)
    requires end <= |m0| && delim != []
  {
    && |m| == |m0| && at <= end && m[at..] == m0[at..]
    && |starts| == |done| + 1 && starts[|done|] == at
    && HoldsAll(m, starts, done, at)
    && Remaining(done, m0[at..end], m0[..end], delim)
  }

  /** What is done and the words of the rest are the words of the whole. */
  ghost predicate Remaining(done: seq<string>, rest: string, all: string, delim: string)
    requires delim != []
  {
    Words(all, delim) == done + Words(rest, delim)
  }

  lemma RemainingStep(done: seq<string>, rest: string, all: string, delim: string, k: nat)
    requires delim != [] && Remaining(done, rest, all, delim) && First(rest, delim) == k
    ensures k + |delim| <= |rest| && Remaining(done + [rest[..k]], rest[k + |delim|..], all, delim)
  {
    hide First, Words;
    WordsStep(rest, delim, k);
    AssociatesWords(done, [rest[..k]], Words(rest[k + |delim|..], delim));
  }

  lemma AssociatesWords(a: seq<string>, b: seq<string>, c: seq<string>)
    ensures (a + b) + c == a + (b + c)
  {
  }

  /** The words done so far can be read at their starts, all before index `at`. */
  ghost predicate HoldsAll(m: seq<char>, starts: seq<nat>, done: seq<string>, at: nat) {
    |done| <= |starts| && forall i | 0 <= i < |done| :: Holds(m, starts[i], done[i]) && starts[i] + |done[i]| < at
  }

  lemma CutStep(m0: seq<char>, m: seq<char>, end: nat, delim: string, starts: seq<nat>, done: seq<string>, at: nat,
                r: nat)
    requires StringAt(m0, 0, end) && delim != [] && Cut(m0, m, end, delim, starts, done, at)
    requires at <= r && First(m0[at..end], delim) == r - at
    ensures r + |delim| <= end
    ensures Cut(m0, m[r := NUL], end, delim, starts + [r + |delim|], done + [m0[at..r]], r + |delim|)
  {
    hide First, Words, HoldsAll, Remaining;
    FoundInside(m0, at, end, delim, r);
    CutParts(m0, m, end, delim, starts, done, at, r);
  }

  lemma CutParts(m0: seq<char>, m: seq<char>, end: nat, delim: string, starts: seq<nat>, done: seq<string>, at: nat,
                 r: nat)
    requires StringAt(m0, 0, end) && delim != [] && Cut(m0, m, end, delim, starts, done, at)
    requires at <= r && r + |delim| <= end && First(m0[at..end], delim) == r - at
    ensures m[r := NUL][r + |delim|..] == m0[r + |delim|..]
    ensures HoldsAll(m[r := NUL], starts + [r + |delim|], done + [m0[at..r]], r + |delim|)
    ensures Remaining(done + [m0[at..r]], m0[r + |delim|..end], m0[..end], delim)
  {
    hide First, Words, HoldsAll, Remaining, StringAt, Cut;
    EndInside(m0, end);
    CutFacts(m0, m, end, delim, starts, done, at);
    RemainingAt(m0, end, delim, done, at, r);
    HoldsMore(m0, m, end, starts, done, at, r, r + |delim|);
    CutTail(m0, m, at, r, |delim|);
  }

  lemma CutFacts(m0: seq<char>, m: seq<char>, end: nat, delim: string, starts: seq<nat>, done: seq<string>, at: nat)
    requires end <= |m0| && delim != [] && Cut(m0, m, end, delim, starts, done, at)
    ensures |m| == |m0| && at <= end && m[at..] == m0[at..] && |starts| == |done| + 1 && starts[|done|] == at
    ensures HoldsAll(m, starts, done, at) && Remaining(done, m0[at..end], m0[..end], delim)
  {
    hide HoldsAll, Remaining;
  }

  lemma EndInside(m0: seq<char>, end: nat)
    requires StringAt(m0, 0, end)
    ensures end < |m0|
  {
  }

  lemma RemainingAt(m0: seq<char>, end: nat, delim: string, done: seq<string>, at: nat, r: nat)
    requires end <= |m0| && delim != [] && at <= r && r + |delim| <= end && First(m0[at..end], delim) == r - at
    requires Remaining(done, m0[at..end], m0[..end], delim)
    ensures Remaining(done + [m0[at..r]], m0[r + |delim|..end], m0[..end], delim)
  {
    hide First, Words, Remaining;
    RemainingStep(done, m0[at..end], m0[..end], delim, r - at);
    Slices(m0, at, r, r + |delim|, end);
  }

  lemma CutTail(m0: seq<char>, m: seq<char>, at: nat, r: nat, n: nat)
    requires |m| == |m0| && 0 < n && at <= r && r + n <= |m| && m[at..] == m0[at..]
    ensures m[r := NUL][r + n..] == m0[r + n..]
  {
    SameFrom(m0, m, at);
  }

  lemma HoldsMore(m0: seq<char>, m: seq<char>, end: nat, starts: seq<nat>, done: seq<string>, at: nat, r: nat,
                  next: nat)
    requires HoldsAll(m, starts, done, at) && |starts| == |done| + 1 && starts[|done|] == at
    requires StringAt(m0, 0, end) && at <= r < next <= end && |m| == |m0| && m[at..] == m0[at..]
    ensures HoldsAll(m[r := NUL], starts + [next], done + [m0[at..r]], next)
  {
    SameFrom(m0, m, at);
    var m', longer := m[r := NUL], done + [m0[at..r]];
    forall i | 0 <= i < |longer| ensures Holds(m', (starts + [next])[i], longer[i])
    && (starts + [next])[i] + |longer[i]| < next {
      if i < |done| {
        HoldsBefore(m, starts[i], done[i], r);
      } else {
        assert m'[at..r] == m0[at..r];
      }
    }
  }

  lemma SameFrom(m0: seq<char>, m: seq<char>, at: nat)
    requires |m| == |m0| && at <= |m| && m[at..] == m0[at..]
    ensures forall x | at <= x < |m| :: m[x] == m0[x]
  {
    forall x | at <= x < |m| ensures m[x] == m0[x] {
      assert m[x] == m[at..][x - at];
    }
  }

  lemma HoldsBefore(m: seq<char>, at: nat, word: string, r: nat)
    requires Holds(m, at, word) && at + |word| < r < |m|
    ensures Holds(m[r := NUL], at, word)
  {
    assert m[r := NUL][at..at + |word|] == m[at..at + |word|];
  }

  lemma CutEnd(m0: seq<char>, m: seq<char>, end: nat, delim: string, starts: seq<nat>, done: seq<string>, at: nat)
    requires StringAt(m0, 0, end) && delim != [] && Cut(m0, m, end, delim, starts, done, at)
    requires First(m0[at..end], delim) < 0
    ensures var words := Words(m0[..end], delim);
            |starts| == |words| && forall i | 0 <= i < |words| :: Holds(m, starts[i], words[i])
  {
    hide First, Words;
    WordsLast(m0[at..end], delim);
    SameFrom(m0, m, at);
    assert Words(m0[..end], delim) == done + [m0[at..end]];
    assert m[at..end] == m0[at..end];
    assert Holds(m, at, m0[at..end]);
  }

  /** The text of m from `at` on, whatever was cut before. */
  lemma CutText(m0: seq<char>, m: seq<char>, end: nat, delim: string, starts: seq<nat>, done: seq<string>, at: nat)
    requires StringAt(m0, 0, end) && delim != [] && Cut(m0, m, end, delim, starts, done, at)
    ensures at <= end < |m| && StringAt(m, at, end) && m[at..end] == m0[at..end]
  {
    SameFrom(m0, m, at);
  }

  /**
   _strsplit: a copy of the string with a NUL at every delimiter, and the starts of
   the words in it. `memory` is whether malloc succeeds.
   */
  method StrSplit(m: array<char>, delim: string, memory: bool, ghost end: nat)
    returns (copy: array<char>, starts: seq<nat>, nb: nat)
    requires StringAt(m[..], 0, end) && delim != [] && NUL !in delim
    ensures fresh(copy) && (!memory ==> starts == [] && nb == 0)
    ensures memory ==>
              var words := Words(m[..end], delim);
              && nb == |words| == |starts|
              && (forall i | 0 <= i < nb :: Holds(copy[..], starts[i], words[i]))
              && (forall i | 0 <= i < nb ::
                    starts[i] + |words[i]| < copy.Length && copy[starts[i]..starts[i] + |words[i]|] == words[i]
                    && copy[starts[i] + |words[i]|] == '\0')
  {
    hide Words, First;
    nb := CountWords(m, delim, end);
    starts := [];
    if !memory {
      copy, nb := new char[0], 0;
      return;
    }
    copy := CopyString(m, end);
    assert copy[..end] == m[..end];
    starts := CutWords(copy, delim, end);
  }

  /** strcpy into a fresh buffer. */
  method CopyString(m: array<char>, ghost end: nat) returns (copy: array<char>)
    requires StringAt(m[..], 0, end)
    ensures fresh(copy) && copy.Length == end + 1 && copy[..] == m[..end + 1]
  {
    var n := 0;
    while m[n] != NUL
      invariant 0 <= n <= end
      decreases end - n
    {
      n := n + 1;
    }
    copy := new char[n + 1](i requires 0 <= i < n + 1 reads m => m[i]);
  }

  /** The second loop of _strsplit. */
  method CutWords(copy: array<char>, delim: string, ghost end: nat) returns (starts: seq<nat>)
    requires StringAt(copy[..], 0, end) && delim != [] && NUL !in delim
    modifies copy
    ensures var words := Words(old(copy[..end]), delim);
            |starts| == |words| && forall i | 0 <= i < |words| :: Holds(copy[..], starts[i], words[i])
  {
    hide Words, First, Cut;
    starts := [0];
    ghost var m0, done := copy[..], [];
    assert m0[0..end] == m0[..end] == copy[..end];
    CutStart(m0, end, delim);
    var at: nat := 0;
    CutText(m0, copy[..], end, delim, starts, done, at);
    var r := StrStr(copy, at, delim, end);
    while r != -1
      invariant end < |m0| && copy.Length == |m0| && Cut(m0, copy[..], end, delim, starts, done, at) && at <= end
      invariant r == -1 || at <= r
      invariant First(m0[at..end], delim) == if r == -1 then -1 else r - at
      decreases end - at
    {
      CutStep(m0, copy[..], end, delim, starts, done, at, r);
      done := done + [m0[at..r]];
      copy[r] := NUL;
      at := r + |delim|;
      starts := starts + [at];
      CutText(m0, copy[..], end, delim, starts, done, at);
      r := StrStr(copy, at, delim, end);
    }
    CutEnd(m0, copy[..], end, delim, starts, done, at);
  }

  lemma CutStart(m0: seq<char>, end: nat, delim: string)
    requires end < |m0| && delim != []
    ensures Cut(m0, m0, end, delim, [0], [], 0)
  {
    assert m0[0..end] == m0[..end];
  }
}
