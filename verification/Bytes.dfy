/** Bytes, little-endian words, the 4-byte alignment of the netlink macros, and the
    memory copies that the drivers perform. */
module Bytes {

  datatype Option<+T> = None | Some(value: T)

  type byte = x: int | 0 <= x < 0x100

  function Min(a: int, b: int): int { if a <= b then a else b }

  const U16_RANGE := 0x1_0000
  const U32_RANGE := 0x1_0000_0000
  const INT_RANGE := 0x8000_0000

  /** The 16-bit word that a little-endian machine loads from address `at`. */
  function U16(m: seq<byte>, at: nat): (v: nat)
    requires at + 2 <= |m|
    ensures v < U16_RANGE
  {
    m[at] as int + 0x100 * m[at + 1] as int
  }

  function U32(m: seq<byte>, at: nat): (v: nat)
    requires at + 4 <= |m|
    ensures v < U32_RANGE
  {
    U16(m, at) + 0x1_0000 * U16(m, at + 2)
  }

  /** The two bytes that storing `v` in an unsigned 16-bit field leaves in memory. */
  function Le16(v: int): (bs: seq<byte>)
    ensures |bs| == 2
  {
    [v % 0x100, v / 0x100 % 0x100]
  }

  function Le32(v: int): (bs: seq<byte>)
    ensures |bs| == 4
  {
    Le16(v) + Le16(v / U16_RANGE)
  }

  /** Conversion to `int` keeps the low 32 bits. */
  function ToInt32(v: int): (i: int)
    requires -U32_RANGE <= v < U32_RANGE
    ensures -INT_RANGE <= i < INT_RANGE
  {
    if v < -INT_RANGE then v + U32_RANGE else if v >= INT_RANGE then v - U32_RANGE else v
  }

  /** NLMSG_ALIGN and RTA_ALIGN: the next multiple of four. */
  function AlignUp(n: nat): (a: nat)
    ensures n <= a < n + 4
  {
    if n == 0 then 0 else if n < 4 then 4 else 4 + AlignUp(n - 4)
  }

  /** The macros compute the same by `(n + 3) & ~3`. */
  lemma {:induction false} AlignFormula(n: nat)
    ensures AlignUp(n) == (n + 3) / 4 * 4
  {
    if n >= 4 {
      AlignFormula(n - 4);
    }
  }

  lemma AlignSum(a: nat, b: nat)
    ensures AlignUp(AlignUp(a) + AlignUp(b)) == AlignUp(a) + AlignUp(b)
  {
    AlignFormula(a);
    AlignFormula(b);
    AlignFormula(AlignUp(a) + AlignUp(b));
  }

  /** `m` with the bytes from address `at` on replaced by `bs`. */
  function Overwrite<T>(m: seq<T>, at: nat, bs: seq<T>): (r: seq<T>)
    requires at + |bs| <= |m|
    ensures |r| == |m|
  {
    m[..at] + bs + m[at + |bs|..]
  }

  lemma OverwriteAt<T>(m: seq<T>, at: nat, bs: seq<T>)
    requires at + |bs| <= |m|
    ensures Overwrite(m, at, bs)[at..at + |bs|] == bs
    ensures Overwrite(m, at, bs)[..at] == m[..at]
    ensures Overwrite(m, at, bs)[at + |bs|..] == m[at + |bs|..]
  {
    ConcatParts(m[..at], bs, m[at + |bs|..]);
  }

  method Memcpy(dst: array<byte>, at: nat, src: seq<byte>)
    requires at + |src| <= dst.Length
    modifies dst
    ensures dst[..] == Overwrite(old(dst[..]), at, src)
  {
    forall i | 0 <= i < |src| {
      dst[at + i] := src[i];
    }
  }

  lemma SubSlice<T>(m: seq<T>, at: nat, end: nat, lo: nat, hi: nat)
    requires at + lo <= at + hi <= end <= |m|
    ensures m[at..end][lo..hi] == m[at + lo..at + hi]
  {
    var s, t := m[at..end][lo..hi], m[at + lo..at + hi];
    assert |s| == |t|;
    assert forall i :: 0 <= i < |s| ==> s[i] == t[i];
  }

  lemma JoinSlices<T>(m: seq<T>, a: nat, b: nat, c: nat)
    requires a <= b <= c <= |m|
    ensures m[a..b] + m[b..c] == m[a..c]
  {
  }

  lemma ConcatParts<T>(a: seq<T>, b: seq<T>, c: seq<T>)
    ensures (a + b + c)[..|a|] == a
    ensures (a + b + c)[|a|..|a| + |b|] == b
    ensures (a + b + c)[|a| + |b|..] == c
  {
    assert a + b + c == a + (b + c);
    assert (a + b)[|a|..] == b;
    assert (a + b + c)[..|a| + |b|] == a + b;
    assert (a + b + c)[|a|..|a| + |b|] == (a + b + c)[..|a| + |b|][|a|..];
  }

  /** The three fields of a record, found back at their offsets. */
  lemma RecordParts<T>(m: seq<T>, at: nat, a: seq<T>, b: seq<T>, c: seq<T>)
    requires at + |a| + |b| + |c| <= |m|
    requires m[at..at + |a| + |b| + |c|] == a + b + c
    ensures m[at..at + |a|] == a
    ensures m[at + |a|..at + |a| + |b|] == b
    ensures m[at + |a| + |b|..at + |a| + |b| + |c|] == c
  {
    var n := |a| + |b| + |c|;
    ConcatParts(a, b, c);
    SubSlice(m, at, at + n, 0, |a|);
    SubSlice(m, at, at + n, |a|, |a| + |b|);
    SubSlice(m, at, at + n, |a| + |b|, n);
  }

  /** Two adjacent copies, in either order, make one copy. */
  lemma OverwriteAdjacent<T>(m: seq<T>, at: nat, a: seq<T>, b: seq<T>)
    requires at + |a| + |b| <= |m|
    ensures Overwrite(Overwrite(m, at, a), at + |a|, b) == Overwrite(m, at, a + b)
    ensures Overwrite(Overwrite(m, at + |a|, b), at, a) == Overwrite(m, at, a + b)
  {
  }

  /** A header of `hd` bytes and a record at `at` written into the same memory. */
  lemma OverwriteHeader<T>(m: seq<T>, at: nat, record: seq<T>, hd: seq<T>)
    requires |hd| <= at && at + |record| <= |m|
    ensures var r := Overwrite(Overwrite(m, at, record), 0, hd);
            && r[..|hd|] == hd
            && r[|hd|..at] == m[|hd|..at]
            && r[at..at + |record|] == record
            && r[at + |record|..] == m[at + |record|..]
  {
    var mid := Overwrite(m, at, record);
    var r := Overwrite(mid, 0, hd);
    OverwriteAt(m, at, record);
    OverwriteAt(mid, 0, hd);
    assert r[|hd|..] == mid[|hd|..];
    SameSlice(r, mid, |hd|, |m|, |hd|, at);
    SameSlice(r, mid, |hd|, |m|, at, at + |record|);
    SameSlice(r, mid, |hd|, |m|, at + |record|, |m|);
    SameSlice(mid, m, 0, at, |hd|, at);
  }

  lemma SplitMod(v: int)
    ensures v % U16_RANGE + U16_RANGE * (v / U16_RANGE % U16_RANGE) == v % U32_RANGE
  {
  }

  /** Loading what was stored gives the value back, reduced to the width of the field. */
  lemma LoadStored16(m: seq<byte>, at: nat, v: int)
    requires at + 2 <= |m| && m[at..at + 2] == Le16(v)
    ensures U16(m, at) == v % U16_RANGE
  {
    assert m[at] == m[at..at + 2][0] && m[at + 1] == m[at..at + 2][1];
  }

  lemma LoadStored32(m: seq<byte>, at: nat, v: int)
    requires at + 4 <= |m| && m[at..at + 4] == Le32(v)
    ensures U32(m, at) == v % U32_RANGE
  {
    var lo, hi := Le16(v), Le16(v / U16_RANGE);
    SubSlice(m, at, at + 4, 0, 2);
    SubSlice(m, at, at + 4, 2, 4);
    assert (lo + hi)[0..2] == lo && (lo + hi)[2..4] == hi;
    LoadStored16(m, at, v);
    LoadStored16(m, at + 2, v / U16_RANGE);
    SplitMod(v);
  }

  /** Two memories that agree on a range hold the same items there. */
  lemma SliceIndex<T>(m: seq<T>, m': seq<T>, lo: nat, hi: nat)
    requires lo <= hi <= |m| && hi <= |m'|
    requires m[lo..hi] == m'[lo..hi]
    ensures forall i :: lo <= i < hi ==> m[i] == m'[i]
  {
    forall i | lo <= i < hi
      ensures m[i] == m'[i]
    {
      assert m[i] == m[lo..hi][i - lo] == m'[lo..hi][i - lo];
    }
  }

  lemma SameSlice<T>(m: seq<T>, m': seq<T>, lo: nat, hi: nat, lo': nat, hi': nat)
    requires lo <= lo' <= hi' <= hi <= |m| && hi <= |m'|
    requires m[lo..hi] == m'[lo..hi]
    ensures m[lo'..hi'] == m'[lo'..hi']
  {
    SubSlice(m, lo, hi, lo' - lo, hi' - lo);
    SubSlice(m', lo, hi, lo' - lo, hi' - lo);
  }
}
