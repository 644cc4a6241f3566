/** The physical-memory device (dram/dram.c), whose reads stop at page boundaries, and its
    client that shows the descriptor table (dram/showgdt.c). */
module PagedRam {
  import opened Bytes

  const EFAULT := 14
  const EINVAL := 22

  /** Physical memory as the kernel maps it, one page at a time. */
  datatype Ram = Ram(pageSize: nat, pages: seq<seq<byte>>) {

    ghost predicate Valid() {
      pageSize > 0 && forall p :: 0 <= p < |pages| ==> |pages[p]| == pageSize
    }

    /** dram_size. */
    function Size(): nat { |pages| * pageSize }

    /** Physical memory as one array of bytes. */
    ghost function Flat(): (m: seq<byte>)
      requires Valid()
      ensures |m| == Size()
    {
      FlatPages(pages, pageSize)
    }
  }

  ghost function FlatPages(pages: seq<seq<byte>>, pageSize: nat): (m: seq<byte>)
    requires forall p :: 0 <= p < |pages| ==> |pages[p]| == pageSize
    ensures |m| == |pages| * pageSize
  {
    if pages == [] then [] else
      assert |pages| * pageSize == pageSize + (|pages| - 1) * pageSize;
      pages[0] + FlatPages(pages[1..], pageSize)
  }

  /** A piece of a page is a piece of flat memory; the page starts at `at`. */
  lemma {:induction false} PagePiece(pages: seq<seq<byte>>, pageSize: nat, p: nat, at: nat, lo: nat, hi: nat)
    requires forall q :: 0 <= q < |pages| ==> |pages[q]| == pageSize
    requires p < |pages| && at == p * pageSize && lo <= hi <= pageSize
    ensures at + hi <= |FlatPages(pages, pageSize)|
    ensures FlatPages(pages, pageSize)[at + lo..at + hi] == pages[p][lo..hi]
    decreases p
  {
    var rest := FlatPages(pages[1..], pageSize);
    assert FlatPages(pages, pageSize) == pages[0] + rest;
    if p == 0 {
      assert at == 0;
      HeadPiece(pages[0], rest, lo, hi);
    } else {
      var before := (p - 1) * pageSize;
      MulPred(p, pageSize);
      PagePiece(pages[1..], pageSize, p - 1, before, lo, hi);
      TailPiece(pages[0], rest, before + lo, before + hi);
    }
  }

  lemma MulPred(p: nat, d: nat)
    requires p > 0
    ensures p * d == d + (p - 1) * d && (p - 1) * d >= 0
  {
  }

  lemma HeadPiece<T>(a: seq<T>, b: seq<T>, lo: nat, hi: nat)
    requires lo <= hi <= |a|
    ensures (a + b)[lo..hi] == a[lo..hi]
  {
  }

  lemma TailPiece<T>(a: seq<T>, b: seq<T>, lo: nat, hi: nat)
    requires lo <= hi <= |b|
    ensures (a + b)[|a| + lo..|a| + hi] == b[lo..hi]
  {
    assert (a + b)[|a|..] == b;
    SubSlice(a + b, |a|, |a + b|, lo, hi);
    assert (a + b)[|a|..|a + b|] == (a + b)[|a|..];
  }

  // ----- Where a read stops -----

  /** The end of the page that `pos` lies in. */
  function PageEnd(pageSize: nat, pos: nat): (e: nat)
    requires pageSize > 0
  {
    (pos / pageSize + 1) * pageSize
  }

  lemma PageEndAfter(pageSize: nat, pos: nat)
    requires pageSize > 0
    ensures PageEnd(pageSize, pos) == pos - pos % pageSize + pageSize
    ensures pos < PageEnd(pageSize, pos) <= pos + pageSize
  {
    assert pos == pageSize * (pos / pageSize) + pos % pageSize;
    assert (pos / pageSize + 1) * pageSize == pageSize * (pos / pageSize) + pageSize;
  }

  /** What one call of dev_read reports, when the copy succeeds. */
  function ReadLen(ram: Ram, pos: nat, count: nat): (n: nat)
    requires ram.pageSize > 0
    ensures n <= count
  {
    if pos >= ram.Size() then 0 else Min(count, ram.pageSize - pos % ram.pageSize)
  }

  /** A read never reaches beyond memory, although only the page is checked. */
  lemma ReadInside(ram: Ram, pos: nat, count: nat)
    requires ram.pageSize > 0
    ensures var n := ReadLen(ram, pos, count);
            && (pos <= ram.Size() ==> pos + n <= ram.Size())
            && (pos < ram.Size() ==> pos + n <= PageEnd(ram.pageSize, pos) && (count > 0 ==> n > 0))
  {
    PageEndAfter(ram.pageSize, pos);
    if pos < ram.Size() {
      PageBelow(ram.pageSize, |ram.pages|, pos);
    }
  }

  /** Short of what was asked for, a read ends exactly at the end of a page. */
  lemma ShortAtPageEnd(ram: Ram, pos: nat, count: nat)
    requires ram.pageSize > 0 && pos < ram.Size()
    ensures var n := ReadLen(ram, pos, count);
            && (n == count || (n < count && (pos + n) % ram.pageSize == 0))
            && (n == count <==> pos + count <= PageEnd(ram.pageSize, pos))
  {
    var n := ReadLen(ram, pos, count);
    PageEndAfter(ram.pageSize, pos);
    if n < count {
      assert pos + n == PageEnd(ram.pageSize, pos) == (pos / ram.pageSize + 1) * ram.pageSize;
      DivUnique(ram.pageSize, pos + n, pos / ram.pageSize + 1, 0);
    }
  }

  lemma PageBelow(pageSize: nat, count: nat, pos: nat)
    requires pageSize > 0 && pos < count * pageSize
    ensures pos / pageSize < count && PageEnd(pageSize, pos) <= count * pageSize
  {
    var p := pos / pageSize;
    assert pos == pageSize * p + pos % pageSize;
    if p >= count {
      MulMono(pageSize, count, p);
    }
    MulMono(pageSize, p + 1, count);
  }

  lemma MulMono(d: nat, a: nat, b: nat)
    requires a <= b
    ensures d * a <= d * b && a * d <= b * d
  {
    assert d * b - d * a == d * (b - a);
  }

  /** What dev_read finds at the mapped page is flat memory at the file position. */
  lemma MappedPage(ram: Ram, pos: nat, p: nat, at: nat, k: nat)
    requires ram.Valid() && pos < ram.Size()
    requires p == pos / ram.pageSize && at == pos % ram.pageSize && at + k <= ram.pageSize
    ensures p < |ram.pages| && pos + k <= |ram.Flat()|
    ensures ram.pages[p][at..at + k] == ram.Flat()[pos..pos + k]
  {
    PageBelow(ram.pageSize, |ram.pages|, pos);
    assert p * ram.pageSize + at == pos;
    PagePiece(ram.pages, ram.pageSize, p, p * ram.pageSize, at, at + k);
  }

  /** copy_to_user, which fails to copy the last `left` bytes, and reports how many. */
  method CopyToUser(buf: array<byte>, src: seq<byte>, left: nat) returns (more: nat)
    requires |src| <= buf.Length
    modifies buf
    ensures more == Min(left, |src|)
    ensures buf[..] == Overwrite(old(buf[..]), 0, src[..|src| - more])
  {
    more := Min(left, |src|);
    Memcpy(buf, 0, src[..|src| - more]);
  }

  class File {
    const ram: Ram
    var pos: nat

    ghost predicate Valid()
      reads this
    {
      ram.Valid() && pos <= ram.Size()
    }

    constructor (ram: Ram)
      requires ram.Valid()
      ensures Valid() && this.ram == ram && pos == 0
    {
      this.ram := ram;
      pos := 0;
    }

    /** dev_read. `left` is how many bytes copy_to_user fails to copy. */
    method DevRead(buf: array<byte>, count: nat, left: nat) returns (r: int)
      requires Valid() && count <= buf.Length
      modifies this, buf
      ensures Valid()
      ensures var n := ReadLen(ram, old(pos), count);
              && old(pos) + n <= |ram.Flat()|
              && var bs := ram.Flat()[old(pos)..old(pos) + n];
                && buf[..] == Overwrite(old(buf[..]), 0, bs[..n - Min(left, n)])
                && r == (if Min(left, n) == 0 then n else -EFAULT)
                && pos == (if Min(left, n) == 0 then old(pos) + n else old(pos))
      ensures left == 0 && old(pos) < ram.Size() ==> r == count || (0 < r < count && pos % ram.pageSize == 0)
      ensures left == 0 && old(pos) >= ram.Size() ==> r == 0
    {
      if pos >= ram.Size() {
        return 0;
      }
      ShortAtPageEnd(ram, pos, count);
      ReadInside(ram, pos, count);
      var src := MapPage(count);
      var more := CopyToUser(buf, src, left);
      if more > 0 {
        return -EFAULT;
      }
      pos := pos + |src|;
      return |src|;
    }

    /** The mapped bytes that dev_read passes on: it cannot go on to the next page. */
    method MapPage(count: nat) returns (src: seq<byte>)
      requires Valid() && pos < ram.Size()
      ensures |src| == ReadLen(ram, pos, count) && pos + |src| <= ram.Size()
      ensures src == ram.Flat()[pos..pos + |src|]
    {
      var pageNumber, pageIndent := pos / ram.pageSize, pos % ram.pageSize;
      var n := count;
      if pageIndent + n > ram.pageSize {
        n := ram.pageSize - pageIndent;
      }
      assert n == ReadLen(ram, pos, count);
      MappedPage(ram, pos, pageNumber, pageIndent, n);
      src := ram.pages[pageNumber][pageIndent..pageIndent + n];
    }

    /** dev_lseek. */
    method DevLseek(offset: int, whence: int) returns (r: int)
      requires Valid()
      modifies this
      ensures Valid()
      ensures var target := SeekTarget(ram, old(pos), offset, whence);
              if 0 <= target <= ram.Size() then r == target == pos else r == -EINVAL && pos == old(pos)
      ensures (r == -22 && pos == old(pos)) || 0 <= r == pos
      ensures whence == 0 ==> (r >= 0 <==> 0 <= offset <= ram.Size()) && (r >= 0 ==> pos == offset)
      ensures whence == 1 ==>
                && (r >= 0 <==> 0 <= old(pos) + offset <= ram.Size())
                && (r >= 0 ==> pos - old(pos) == offset)
      ensures whence == 2 ==>
                && (r >= 0 <==> 0 <= ram.Size() + offset <= ram.Size())
                && (r >= 0 ==> pos - ram.Size() == offset)
      ensures whence !in {0, 1, 2} ==> r == -22
    {
      var newpos := -1;
      match whence {
        case 0 => newpos := offset;
        case 1 => newpos := pos + offset;
        case 2 => newpos := ram.Size() + offset;
        case _ =>
      }
      if newpos < 0 || newpos > ram.Size() {
        return -EINVAL;
      }
      pos := newpos;
      return newpos;
    }
  }

  function SeekTarget(ram: Ram, pos: nat, offset: int, whence: int): int {
    if whence == 0 then offset else if whence == 1 then pos + offset
    else if whence == 2 then ram.Size() + offset else -1
  }

  // ----- Runs of calls -----

  datatype Call = Read(count: nat) | Seek(offset: int, whence: int)

  /** The file position after one call. */
  function After(ram: Ram, pos: nat, c: Call): nat
    requires ram.pageSize > 0
  {
    match c
    case Read(count) => pos + ReadLen(ram, pos, count)
    case Seek(offset, whence) =>
      var target := SeekTarget(ram, pos, offset, whence);
      if 0 <= target <= ram.Size() then target else pos
  }

  /** Seeking by 0 from the position (1) tells it and from the end (2) finds the end, two
      seeks from the position add up, a seek from the end does not depend on the position,
      and one with any other origin does nothing. */
  lemma SeekLaws(ram: Ram, pos: nat, pos': nat, a: int, b: int, whence: int)
    requires ram.pageSize > 0 && pos <= ram.Size() && pos' <= ram.Size()
    ensures After(ram, pos, Seek(0, 1)) == pos && After(ram, pos, Seek(0, 2)) == ram.Size()
    ensures 0 <= pos + a <= ram.Size() ==> After(ram, pos, Seek(a, 1)) - pos == a
    ensures 0 <= pos + a <= ram.Size() && 0 <= pos + a + b <= ram.Size() ==>
              After(ram, After(ram, pos, Seek(a, 1)), Seek(b, 1)) == After(ram, pos, Seek(a + b, 1))
    ensures 0 <= ram.Size() + a <= ram.Size() ==>
              && After(ram, pos, Seek(a, 2)) == After(ram, pos', Seek(a, 2))
              && After(ram, After(ram, pos, Seek(0, 2)), Seek(a, 1)) == After(ram, pos, Seek(a, 2))
    ensures 0 <= a <= ram.Size() ==> After(ram, pos, Seek(a, 0)) == a
    ensures whence !in {0, 1, 2} ==> After(ram, pos, Seek(a, whence)) == pos
  {
  }

  function AfterAll(ram: Ram, pos: nat, calls: seq<Call>): nat
    requires ram.pageSize > 0
    decreases |calls|
  {
    if calls == [] then pos else AfterAll(ram, After(ram, pos, calls[0]), calls[1..])
  }

  /** No run of reads and seeks takes the position out of memory. */
  lemma {:induction false} RunStaysInside(ram: Ram, pos: nat, calls: seq<Call>)
    requires ram.pageSize > 0 && pos <= ram.Size()
    ensures AfterAll(ram, pos, calls) <= ram.Size()
    decreases |calls|
  {
    if calls != [] {
      if calls[0].Read? {
        ReadInside(ram, pos, calls[0].count);
      }
      RunStaysInside(ram, After(ram, pos, calls[0]), calls[1..]);
    }
  }

  /** The bytes delivered by successive reads that ask for `counts`. */
  ghost function Delivered(ram: Ram, pos: nat, counts: seq<nat>): (bs: seq<byte>)
    requires ram.Valid() && pos <= ram.Size()
    decreases |counts|
  {
    if counts == [] then [] else
      var n := ReadLen(ram, pos, counts[0]);
      ReadInside(ram, pos, counts[0]);
      ram.Flat()[pos..pos + n] + Delivered(ram, pos + n, counts[1..])
  }

  /** Cutting at page boundaries loses nothing: whatever counts a client asks for, it gets
      one contiguous piece of flat memory. */
  lemma {:induction false} ReadsReassemble(ram: Ram, pos: nat, counts: seq<nat>)
    requires ram.Valid() && pos <= ram.Size()
    ensures pos + |Delivered(ram, pos, counts)| <= ram.Size()
    ensures Delivered(ram, pos, counts) == ram.Flat()[pos..pos + |Delivered(ram, pos, counts)|]
    decreases |counts|
  {
    if counts != [] {
      var n := ReadLen(ram, pos, counts[0]);
      ReadInside(ram, pos, counts[0]);
      ReadsReassemble(ram, pos + n, counts[1..]);
      JoinSlices(ram.Flat(), pos, pos + n, pos + n + |Delivered(ram, pos + n, counts[1..])|);
    }
  }

  /** The counts that a client asks for when it reads from `a` until it has reached `b`,
      each time wanting all that is left. */
  ghost function CallsTo(ram: Ram, a: nat, b: nat): (counts: seq<nat>)
    requires ram.Valid() && a <= b <= ram.Size()
    decreases b - a
  {
    if a == b then [] else
      ReadInside(ram, a, b - a);
      [b - a] + CallsTo(ram, a + ReadLen(ram, a, b - a), b)
  }

  /** It gets exactly the bytes from `a` to `b`, in one call per page touched. */
  lemma ReadRange(ram: Ram, a: nat, b: nat)
    requires ram.Valid() && a < b <= ram.Size()
    ensures Delivered(ram, a, CallsTo(ram, a, b)) == ram.Flat()[a..b]
    ensures |CallsTo(ram, a, b)| == (b - 1) / ram.pageSize - a / ram.pageSize + 1
  {
    BytesOfRange(ram, a, b);
    CallsForRange(ram, a, b);
  }

  lemma {:induction false} BytesOfRange(ram: Ram, a: nat, b: nat)
    requires ram.Valid() && a <= b <= ram.Size()
    ensures Delivered(ram, a, CallsTo(ram, a, b)) == ram.Flat()[a..b]
    decreases b - a
  {
    if a < b {
      var n := ReadLen(ram, a, b - a);
      ReadInside(ram, a, b - a);
      BytesOfRange(ram, a + n, b);
      DeliveredCons(ram, a, b - a, CallsTo(ram, a + n, b));
      JoinSlices(ram.Flat(), a, a + n, b);
    }
  }

  lemma DeliveredCons(ram: Ram, pos: nat, count: nat, counts: seq<nat>)
    requires ram.Valid() && pos <= ram.Size() && pos + ReadLen(ram, pos, count) <= ram.Size()
    ensures var n := ReadLen(ram, pos, count);
            Delivered(ram, pos, [count] + counts) == ram.Flat()[pos..pos + n] + Delivered(ram, pos + n, counts)
  {
    assert ([count] + counts)[0] == count && ([count] + counts)[1..] == counts;
  }

  lemma {:induction false} CallsForRange(ram: Ram, a: nat, b: nat)
    requires ram.Valid() && a < b <= ram.Size()
    ensures |CallsTo(ram, a, b)| == (b - 1) / ram.pageSize - a / ram.pageSize + 1
    decreases b - a
  {
    var n := ReadLen(ram, a, b - a);
    ReadInside(ram, a, b - a);
    PageEndAfter(ram.pageSize, a);
    if a + n == b {
      SamePage(ram.pageSize, a, b - 1);
    } else {
      assert a + n == PageEnd(ram.pageSize, a);
      NextPage(ram.pageSize, a);
      CallsForRange(ram, a + n, b);
    }
  }

  lemma SamePage(pageSize: nat, a: nat, x: nat)
    requires pageSize > 0 && a <= x < PageEnd(pageSize, a)
    ensures x / pageSize == a / pageSize
  {
    PageEndAfter(pageSize, a);
    DivUnique(pageSize, x, a / pageSize, x - a + a % pageSize);
  }

  lemma NextPage(pageSize: nat, a: nat)
    requires pageSize > 0
    ensures PageEnd(pageSize, a) / pageSize == a / pageSize + 1
  {
    DivUnique(pageSize, PageEnd(pageSize, a), a / pageSize + 1, 0);
  }

  lemma DivUnique(d: nat, x: nat, q: nat, r: nat)
    requires d > 0 && r < d && x == q * d + r
    ensures x / d == q && x % d == r
  {
    var q' := x / d;
    assert x == d * q' + x % d;
    if q' > q {
      assert d * (q + 1) == q * d + d;
      MulMono(d, q + 1, q');
    } else if q' < q {
      assert d * (q' + 1) == d * q' + d;
      MulMono(d, q' + 1, q);
    }
  }

  // ----- showgdt -----

  const DESCRIPTOR := 8

  /** Where the descriptor reads stand after `i` of them that were not short. */
  function GdtAt(gdt: nat, i: nat): nat { gdt + DESCRIPTOR * i }

  /** Read `i` of the table at `gdt` returns a whole descriptor. */
  predicate WholeRead(ram: Ram, gdt: nat, i: nat)
    requires ram.pageSize > 0
  {
    ReadLen(ram, GdtAt(gdt, i), DESCRIPTOR) == DESCRIPTOR
  }

  /** The table is aligned to its descriptors or lies within one page. */
  predicate Unbroken(ram: Ram, gdt: nat, n: nat)
    requires ram.pageSize > 0
  {
    gdt % DESCRIPTOR == 0 || GdtAt(gdt, n) <= PageEnd(ram.pageSize, gdt)
  }

  /** No descriptor read is short if and only if the table is unbroken and ends inside
      memory. */
  lemma WholeReadsIff(ram: Ram, gdt: nat, n: nat)
    requires ram.pageSize > 0 && ram.pageSize % DESCRIPTOR == 0 && n > 0
    ensures (forall i :: 0 <= i < n ==> WholeRead(ram, gdt, i))
       <==> Unbroken(ram, gdt, n) && GdtAt(gdt, n) <= ram.Size()
  {
    if GdtAt(gdt, n) > ram.Size() {
      ReadInside(ram, GdtAt(gdt, n - 1), DESCRIPTOR);
      assert !WholeRead(ram, gdt, n - 1);
    } else if Unbroken(ram, gdt, n) {
      forall i | 0 <= i < n
        ensures WholeRead(ram, gdt, i)
      {
        UnbrokenWhole(ram, gdt, n, i);
      }
    } else {
      var i := BrokenAt(ram, gdt, n);
    }
  }

  /** The first descriptor of a table that starts four bytes before the end of a page is cut
      in two. */
  lemma BrokenTable(ram: Ram)
    requires ram.pageSize == 4096 && |ram.pages| == 2
    ensures ReadLen(ram, 4092, DESCRIPTOR) == 4 && !WholeRead(ram, 4092, 0) && !Unbroken(ram, 4092, 1)
  {
  }

  lemma UnbrokenWhole(ram: Ram, gdt: nat, n: nat, i: nat)
    requires ram.pageSize > 0 && ram.pageSize % DESCRIPTOR == 0
    requires i < n && GdtAt(gdt, n) <= ram.Size() && Unbroken(ram, gdt, n)
    ensures WholeRead(ram, gdt, i)
  {
    var pos := GdtAt(gdt, i);
    if gdt % DESCRIPTOR == 0 {
      PageEndAligned(ram.pageSize, pos);
      PageEndAfter(ram.pageSize, pos);
      AlignedGap(gdt, i, PageEnd(ram.pageSize, pos));
    } else {
      SamePage(ram.pageSize, gdt, pos);
    }
    WholeBeforePageEnd(ram, pos);
  }

  lemma AlignedGap(gdt: nat, i: nat, end: nat)
    requires gdt % DESCRIPTOR == 0 && end % DESCRIPTOR == 0 && GdtAt(gdt, i) < end
    ensures GdtAt(gdt, i) + DESCRIPTOR <= end
  {
  }

  lemma WholeBeforePageEnd(ram: Ram, pos: nat)
    requires ram.pageSize > 0 && pos < ram.Size() && pos + DESCRIPTOR <= PageEnd(ram.pageSize, pos)
    ensures ReadLen(ram, pos, DESCRIPTOR) == DESCRIPTOR
  {
    PageEndAfter(ram.pageSize, pos);
  }

  lemma BrokenAt(ram: Ram, gdt: nat, n: nat) returns (i: nat)
    requires ram.pageSize > 0 && ram.pageSize % DESCRIPTOR == 0
    requires n > 0 && GdtAt(gdt, n) <= ram.Size() && !Unbroken(ram, gdt, n)
    ensures i < n && !WholeRead(ram, gdt, i)
  {
    var end := PageEnd(ram.pageSize, gdt);
    PageEndAfter(ram.pageSize, gdt);
    PageEndAligned(ram.pageSize, gdt);
    i := (end - gdt) / DESCRIPTOR;
    StraddlesAt(gdt, end, i);
    SamePage(ram.pageSize, gdt, GdtAt(gdt, i));
    PageEndAfter(ram.pageSize, GdtAt(gdt, i));
  }

  lemma PageEndAligned(pageSize: nat, pos: nat)
    requires pageSize > 0 && pageSize % DESCRIPTOR == 0
    ensures PageEnd(pageSize, pos) % DESCRIPTOR == 0
  {
    var q, k := pos / pageSize + 1, pageSize / DESCRIPTOR;
    assert pageSize == DESCRIPTOR * k;
    assert q * pageSize == DESCRIPTOR * (q * k);
    DivUnique(DESCRIPTOR, q * pageSize, q * k, 0);
  }

  /** The first misaligned descriptor that reaches the end of the page goes beyond it. */
  lemma StraddlesAt(gdt: nat, end: nat, i: nat)
    requires gdt % DESCRIPTOR != 0 && end % DESCRIPTOR == 0 && gdt < end && i == (end - gdt) / DESCRIPTOR
    ensures GdtAt(gdt, i) < end < GdtAt(gdt, i) + DESCRIPTOR
  {
  }

  ghost predicate Shown(ram: Ram, gdt: nat, shown: seq<seq<byte>>)
    requires ram.Valid()
  {
    forall i :: 0 <= i < |shown| ==>
      && GdtAt(gdt, i) + DESCRIPTOR <= |ram.Flat()|
      && shown[i] == ram.Flat()[GdtAt(gdt, i)..GdtAt(gdt, i) + DESCRIPTOR]
  }

  /** The descriptor table as the program shows it. A failed seek and short reads go
      unnoticed, but do not happen to an unbroken table inside memory. */
  method ShowGdt(file: File, descriptor: array<byte>, gdt: nat, limit: nat) returns (shown: seq<seq<byte>>)
    requires file.Valid() && file.ram.pageSize % DESCRIPTOR == 0
    requires descriptor.Length == DESCRIPTOR && limit < U16_RANGE
    modifies file, descriptor
    ensures |shown| == (1 + limit) / 8
    ensures gdt + 8 * |shown| <= file.ram.Size() && gdt % 8 == 0 ==>
              forall i :: 0 <= i < |shown| ==> shown[i] == file.ram.Flat()[gdt + 8 * i..gdt + 8 * i + 8]
    ensures GdtAt(gdt, |shown|) <= file.ram.Size() && Unbroken(file.ram, gdt, |shown|) ==> Shown(file.ram, gdt, shown)
  {
    var n := (1 + limit) / 8;
    ghost var good := GdtAt(gdt, n) <= file.ram.Size() && Unbroken(file.ram, gdt, n);
    var r := file.DevLseek(gdt, 0);
    shown := [];
    for i := 0 to n
      invariant file.Valid() && |shown| == i
      invariant good ==> file.pos == GdtAt(gdt, i) && Shown(file.ram, gdt, shown)
    {
      if good {
        UnbrokenWhole(file.ram, gdt, n, i);
      }
      ghost var was := descriptor[..];
      var got := file.DevRead(descriptor, DESCRIPTOR, 0);
      if good {
        WholeOverwrite(was, file.ram.Flat()[GdtAt(gdt, i)..GdtAt(gdt, i) + DESCRIPTOR]);
      }
      shown := shown + [descriptor[..]];
    }
  }

  lemma WholeOverwrite<T>(m: seq<T>, bs: seq<T>)
    requires |m| == |bs|
    ensures Overwrite(m, 0, bs[..|bs|]) == bs
  {
  }
}
