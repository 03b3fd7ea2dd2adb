/** Little-endian words inside byte sequences. */
module Words {
  import opened Bits

  function Value(s: seq<Byte>): nat {
    if s == [] then 0 else s[0] + 256 * Value(s[1..])
  }

  /** The k bytes of n, lowest first. */
  function Little(n: nat, k: nat): (s: seq<Byte>)
    ensures |s| == k
    decreases n, k
  {
    if k == 0 then [] else [n % 256] + Little(n / 256, k - 1)
  }

  function WordAt(m: seq<Byte>, a: nat, k: nat): nat
    requires a + k <= |m|
  {
    Value(m[a..a + k])
  }

  /** m with the bytes s at address a. */
  function Put(m: seq<Byte>, a: nat, s: seq<Byte>): (r: seq<Byte>)
    requires a + |s| <= |m|
    ensures |r| == |m|
    ensures forall x: nat | x < |m| :: r[x] == if a <= x < a + |s| then s[x - a] else m[x]
  {
    m[..a] + s + m[a + |s|..]
  }

  lemma {:induction false} ValueLittle(n: nat, k: nat)
    requires n < Pow2(8 * k)
    ensures Value(Little(n, k)) == n
    decreases k
  {
    if k > 0 {
      Pow2Byte(k - 1);
      ValueLittle(n / 256, k - 1);
      assert Little(n, k)[1..] == Little(n / 256, k - 1);
    }
  }

  /** Lowest byte first: byte i of n counts 256 to the power i. */
  lemma {:induction false} LittleByte(n: nat, k: nat, i: nat)
    requires i < k
    ensures Little(n, k)[i] == n / Pow2(8 * i) % 256
    decreases i
  {
    if i > 0 {
      LittleByte(n / 256, k - 1, i - 1);
      Pow2Byte(i - 1);
      DivDiv(n, 256, Pow2(8 * (i - 1)));
    } else {
      assert Pow2(0) == 1;
    }
  }

  lemma Pow2Byte(k: nat)
    ensures Pow2(8 * (k + 1)) == 256 * Pow2(8 * k)
  {
    Pow2Add(8 * k, 8);
    ShlValues(Pow2(8 * k));
  }

  /** A word that was put can be read back, and words elsewhere are untouched. */
  lemma PutWord(m: seq<Byte>, a: nat, k: nat, n: nat, b: nat, j: nat)
    requires a + k <= |m| && b + j <= |m| && n < Pow2(8 * k)
    ensures WordAt(Put(m, a, Little(n, k)), a, k) == n
    ensures b + j <= a || a + k <= b ==> WordAt(Put(m, a, Little(n, k)), b, j) == WordAt(m, b, j)
  {
    var r := Put(m, a, Little(n, k));
    ValueLittle(n, k);
    assert r[a..a + k] == Little(n, k);
    if b + j <= a || a + k <= b {
      assert r[b..b + j] == m[b..b + j];
    }
  }

  lemma SameWord(m: seq<Byte>, m': seq<Byte>, a: nat, k: nat)
    requires a + k <= |m| && |m'| == |m| && forall x | a <= x < a + k :: m'[x] == m[x]
    ensures WordAt(m', a, k) == WordAt(m, a, k)
  {
    assert m'[a..a + k] == m[a..a + k];
  }
}
