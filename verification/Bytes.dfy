/** Bytes, 32-bit words and their little-endian layout in memory. */
module Bytes {
  type byte = x: int | 0 <= x < 0x100
  type u16 = x: int | 0 <= x < 0x1_0000
  type u32 = x: int | 0 <= x < 0x1_0000_0000

  const TWO32: int := 0x1_0000_0000

  /** Bytes whose number a 32-bit size can tell. */
  type text32 = s: seq<byte> | |s| < TWO32 witness []

  /** The characters of a text as bytes. */
  function Ascii(s: string): (b: seq<byte>)
    requires forall i | 0 <= i < |s| :: s[i] < 128 as char
    ensures |b| == |s| && forall i | 0 <= i < |s| :: b[i] == s[i] as int
  {
    seq<byte>(|s|, i requires 0 <= i < |s| => s[i] as int)
  }

  function Min(a: int, b: int): int {
    if a < b then a else b
  }

  function Max(a: nat, b: nat): nat {
    if a < b then b else a
  }

  /** The number whose bytes are b, least significant first. */
  function FromLE(b: seq<byte>): (n: nat)
    decreases |b|
  {
    if b == [] then 0 else b[0] + 0x100 * FromLE(b[1..])
  }

  /** The low count bytes of n, least significant first. */
  function ToLE(n: nat, count: nat): (b: seq<byte>)
    ensures |b| == count
    decreases count
  {
    if count == 0 then [] else [n % 0x100] + ToLE(n / 0x100, count - 1)
  }

  function Pow256(count: nat): (r: nat)
    ensures r >= 1
  {
    if count == 0 then 1 else 0x100 * Pow256(count - 1)
  }

  lemma {:induction false} FromLEBound(b: seq<byte>)
    ensures FromLE(b) < Pow256(|b|)
    decreases |b|
  {
    if b != [] { FromLEBound(b[1..]); }
  }

  lemma {:induction false} FromToLE(n: nat, count: nat)
    requires n < Pow256(count)
    ensures FromLE(ToLE(n, count)) == n
    decreases count
  {
    if count > 0 {
      FromToLE(n / 0x100, count - 1);
      assert ToLE(n, count)[1..] == ToLE(n / 0x100, count - 1);
    }
  }

  /** The 32-bit word stored at offset i. */
  function Word(m: seq<byte>, i: nat): u32
    requires i + 4 <= |m|
  {
    FromLEBound(m[i..i + 4]);
    assert Pow256(4) == TWO32;
    FromLE(m[i..i + 4])
  }

  /** The 16-bit word stored at offset i. */
  function Half(m: seq<byte>, i: nat): u16
    requires i + 2 <= |m|
  {
    FromLEBound(m[i..i + 2]);
    assert Pow256(2) == 0x1_0000;
    FromLE(m[i..i + 2])
  }

  /** 32-bit words, one after the other. */
  function WordBytes(words: seq<u32>): (b: seq<byte>)
    ensures |b| == 4 * |words|
  {
    if words == [] then [] else ToLE(words[0], 4) + WordBytes(words[1..])
  }

  /** 16-bit words, one after the other. */
  function HalfBytes(halves: seq<u16>): (b: seq<byte>)
    ensures |b| == 2 * |halves|
  {
    if halves == [] then [] else ToLE(halves[0], 2) + HalfBytes(halves[1..])
  }

  lemma {:induction false} WordOfBytes(words: seq<u32>, i: nat)
    requires i < |words|
    ensures WordBytes(words)[4 * i..4 * i + 4] == ToLE(words[i], 4)
  {
    hide ToLE;
    if i > 0 {
      WordOfBytes(words[1..], i - 1);
      SliceBehind(ToLE(words[0], 4), WordBytes(words[1..]), 4 * (i - 1), 4 * i);
    }
  }

  lemma {:induction false} HalfOfBytes(halves: seq<u16>, i: nat)
    requires i < |halves|
    ensures HalfBytes(halves)[2 * i..2 * i + 2] == ToLE(halves[i], 2)
  {
    hide ToLE;
    if i > 0 {
      HalfOfBytes(halves[1..], i - 1);
      SliceBehind(ToLE(halves[0], 2), HalfBytes(halves[1..]), 2 * (i - 1), 2 * i);
    }
  }

  lemma SliceBehind(a: seq<byte>, b: seq<byte>, i: nat, j: nat)
    requires i <= j <= |b|
    ensures (a + b)[|a| + i..|a| + j] == b[i..j]
  {
  }

  lemma WordIs(m: seq<byte>, j: nat, w: u32)
    requires j + 4 <= |m| && m[j..j + 4] == ToLE(w, 4)
    ensures Word(m, j) == w
  {
    assert Pow256(4) == TWO32;
    FromToLE(w, 4);
    hide ToLE, FromLE, Pow256;
  }

  lemma HalfIs(m: seq<byte>, j: nat, h: u16)
    requires j + 2 <= |m| && m[j..j + 2] == ToLE(h, 2)
    ensures Half(m, j) == h
  {
    assert Pow256(2) == 0x1_0000;
    FromToLE(h, 2);
    hide ToLE, FromLE, Pow256;
  }

  /** Written words are read back. */
  lemma WordWritten(m: seq<byte>, o: nat, words: seq<u32>, i: nat)
    requires o + 4 * |words| <= |m| && m[o..o + 4 * |words|] == WordBytes(words) && i < |words|
    ensures Word(m, o + 4 * i) == words[i]
  {
    hide ToLE, FromLE, Pow256, Word, WordBytes;
    WordOfBytes(words, i);
    PartOfSlice(m, o, WordBytes(words), 4 * i, 4 * i + 4);
    WordIs(m, o + 4 * i, words[i]);
  }

  lemma HalfWritten(m: seq<byte>, o: nat, halves: seq<u16>, i: nat)
    requires o + 2 * |halves| <= |m| && m[o..o + 2 * |halves|] == HalfBytes(halves) && i < |halves|
    ensures Half(m, o + 2 * i) == halves[i]
  {
    hide ToLE, FromLE, Pow256, Half, HalfBytes;
    HalfOfBytes(halves, i);
    PartOfSlice(m, o, HalfBytes(halves), 2 * i, 2 * i + 2);
    HalfIs(m, o + 2 * i, halves[i]);
  }

  lemma PartOfSlice(m: seq<byte>, o: nat, b: seq<byte>, p: nat, q: nat)
    requires o + |b| <= |m| && m[o..o + |b|] == b && p <= q <= |b|
    ensures m[o + p..o + q] == b[p..q]
  {
    SliceOfSlice(m, o, o + |b|, p, q);
  }

  /** The bytes of a word, low byte first. */
  lemma LowByteFirst(m: seq<byte>, i: nat)
    ensures i + 2 <= |m| ==> Half(m, i) == m[i] as int + 0x100 * m[i + 1] as int
    ensures i + 4 <= |m| ==>
              Word(m, i) == m[i] as int + 0x100 * m[i + 1] as int + 0x1_0000 * m[i + 2] as int
                            + 0x100_0000 * m[i + 3] as int
  {
    if i + 2 <= |m| { FromLE2(m[i..i + 2]); }
    if i + 4 <= |m| { FromLE4(m[i..i + 4]); }
    hide FromLE;
  }

  lemma FromLE2(b: seq<byte>)
    requires |b| == 2
    ensures FromLE(b) == b[0] as int + 0x100 * b[1] as int
  {
    assert FromLE(b[1..]) == b[1] + 0x100 * FromLE(b[1..][1..]);
    assert b[1..][1..] == [];
  }

  lemma FromLE4(b: seq<byte>)
    requires |b| == 4
    ensures FromLE(b) == b[0] as int + 0x100 * b[1] as int + 0x1_0000 * b[2] as int + 0x100_0000 * b[3] as int
  {
    var c := b[1..];
    assert FromLE(c) == c[0] + 0x100 * FromLE(c[1..]);
    FromLE2(c[1..]);
  }

  /** m with the bytes d written from offset o on. */
  function Overlay(m: seq<byte>, o: nat, d: seq<byte>): (r: seq<byte>)
    requires o + |d| <= |m|
    ensures |r| == |m|
    ensures forall k | 0 <= k < |m| :: r[k] == if o <= k < o + |d| then d[k - o] else m[k]
  {
    m[..o] + d + m[o + |d|..]
  }

  lemma SliceOfSlice(s: seq<byte>, a: nat, b: nat, p: nat, q: nat)
    requires p <= q && a + q <= b <= |s|
    ensures s[a..b][p..q] == s[a + p..a + q]
  {
    var l, r := s[a..b][p..q], s[a + p..a + q];
    forall k | 0 <= k < |l| ensures l[k] == r[k] {
      assert l[k] == s[a..b][p + k] == s[a + p + k];
    }
  }

  lemma Regroup<T>(a: seq<T>, b: seq<T>, c: seq<T>)
    ensures (a + b) + c == a + (b + c)
  {
  }

  /** m and m' agree outside [lo, hi), byte by byte and word by word. */
  ghost predicate SameOutside(m: seq<byte>, m': seq<byte>, lo: nat, hi: nat) {
    && |m'| == |m|
    && (forall k | 0 <= k < |m| && !(lo <= k < hi) :: m'[k] == m[k])
    && (forall j: nat | j + 4 <= |m| && (j + 4 <= lo || hi <= j) :: Word(m', j) == Word(m, j))
  }

  /** m' is m with the word w stored at offset i, and nothing else changed. */
  ghost predicate Wrote(m: seq<byte>, m': seq<byte>, i: nat, w: u32)
    requires i + 4 <= |m|
  {
    SameOutside(m, m', i, i + 4) && Word(m', i) == w
  }

  lemma OverlayWrote(m: seq<byte>, i: nat, w: u32)
    requires i + 4 <= |m|
    ensures Wrote(m, Overlay(m, i, ToLE(w, 4)), i, w)
  {
    var r := Overlay(m, i, ToLE(w, 4));
    assert Pow256(4) == TWO32;
    FromToLE(w, 4);
    assert r[i..i + 4] == ToLE(w, 4);
    forall j: nat | j + 4 <= |m| && (j + 4 <= i || i + 4 <= j)
      ensures Word(r, j) == Word(m, j)
    {
      assert r[j..j + 4] == m[j..j + 4];
    }
  }
}
