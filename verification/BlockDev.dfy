/** The RAM block device (test_blockdev/test_blockdev.c): a request is a list of memory
    segments, served by copying each to or from one byte array. */
module BlockDev {
  import opened Bytes

  const SECTOR_SIZE := 512

  /** A bio_vec: a range of the machine's memory. */
  datatype Seg = Seg(addr: nat, len: nat) {

    predicate Within(size: nat) { addr + len <= size }

    predicate Apart(other: Seg) {
      addr + len <= other.addr || other.addr + other.len <= addr
    }
  }

  predicate AllWithin(segs: seq<Seg>, size: nat) {
    segs == [] || (segs[0].Within(size) && AllWithin(segs[1..], size))
  }

  predicate ApartFrom(s: Seg, segs: seq<Seg>) {
    segs == [] || (s.Apart(segs[0]) && ApartFrom(s, segs[1..]))
  }

  /** No byte of memory belongs to two segments. */
  predicate Disjoint(segs: seq<Seg>) {
    segs == [] || (ApartFrom(segs[0], segs[1..]) && Disjoint(segs[1..]))
  }

  function Total(segs: seq<Seg>): nat {
    if segs == [] then 0 else segs[0].len + Total(segs[1..])
  }

  // ----- What a request means, without segments -----

  /** The contents of the segments, in order. */
  function Gather(mem: seq<byte>, segs: seq<Seg>): (bs: seq<byte>)
    requires AllWithin(segs, |mem|)
    ensures |bs| == Total(segs)
  {
    if segs == [] then [] else mem[segs[0].addr..segs[0].addr + segs[0].len] + Gather(mem, segs[1..])
  }

  /** Memory with `bs` spread over the segments, in order, as far as it goes. */
  function Scatter(mem: seq<byte>, segs: seq<Seg>, bs: seq<byte>): (r: seq<byte>)
    requires AllWithin(segs, |mem|)
    ensures |r| == |mem|
    decreases |segs|
  {
    if segs == [] then mem
    else
      var k := Min(segs[0].len, |bs|);
      Scatter(Overwrite(mem, segs[0].addr, bs[..k]), segs[1..], bs[k..])
  }

  /** The device with `bs` stored from `pos` on, cut off at its end. */
  function Put(data: seq<byte>, pos: nat, bs: seq<byte>): (r: seq<byte>)
    requires pos <= |data|
    ensures |r| == |data|
  {
    Overwrite(data, pos, bs[..Min(|bs|, |data| - pos)])
  }

  // ----- The driver -----

  datatype Store = Store(disk: seq<byte>, mem: seq<byte>)

  /** How much of a segment of `len` bytes fits between `pos` and the end of the device. */
  function Clip(len: nat, pos: nat, size: nat): (k: nat)
    requires pos <= size
  {
    Min(len, size - pos)
  }

  /** One segment copied, clipped at the end of the device. */
  function CopySeg(s: Store, pos: nat, seg: Seg, write: bool): (r: Store)
    requires pos <= |s.disk| && seg.Within(|s.mem|)
    ensures |r.disk| == |s.disk| && |r.mem| == |s.mem|
  {
    var k := Clip(seg.len, pos, |s.disk|);
    if write
    then s.(disk := Overwrite(s.disk, pos, s.mem[seg.addr..seg.addr + k]))
    else s.(mem := Overwrite(s.mem, seg.addr, s.disk[pos..pos + k]))
  }

  lemma CopyWrite(s: Store, pos: nat, seg: Seg, bs: seq<byte>)
    requires pos <= |s.disk| && seg.Within(|s.mem|) && |bs| == Clip(seg.len, pos, |s.disk|)
    requires bs == s.mem[seg.addr..seg.addr + |bs|]
    ensures CopySeg(s, pos, seg, true) == Store(Overwrite(s.disk, pos, bs), s.mem)
  {
  }

  lemma CopyRead(s: Store, pos: nat, seg: Seg, bs: seq<byte>)
    requires pos <= |s.disk| && seg.Within(|s.mem|) && |bs| == Clip(seg.len, pos, |s.disk|)
    requires bs == s.disk[pos..pos + |bs|]
    ensures CopySeg(s, pos, seg, false) == Store(s.disk, Overwrite(s.mem, seg.addr, bs))
  {
  }

  function Serve(s: Store, pos: nat, segs: seq<Seg>, write: bool): (r: Store)
    requires pos <= |s.disk| && AllWithin(segs, |s.mem|)
    ensures |r.disk| == |s.disk| && |r.mem| == |s.mem|
    decreases |segs|
  {
    if segs == [] then s
    else Serve(CopySeg(s, pos, segs[0], write), pos + Clip(segs[0].len, pos, |s.disk|), segs[1..], write)
  }

  datatype Progress = Progress(store: Store, n: nat)

  /** The store after the first `i` segments, and the number of bytes copied so far. */
  function After(s: Store, start: nat, segs: seq<Seg>, write: bool, i: nat): (p: Progress)
    requires start <= |s.disk| && AllWithin(segs, |s.mem|) && i <= |segs|
    ensures |p.store.disk| == |s.disk| && |p.store.mem| == |s.mem|
    ensures start + p.n <= |s.disk|
  {
    if i == 0 then Progress(s, 0)
    else
      var p := After(s, start, segs, write, i - 1);
      WithinAt(segs, |s.mem|, i - 1);
      Progress(CopySeg(p.store, start + p.n, segs[i - 1], write),
               p.n + Clip(segs[i - 1].len, start + p.n, |s.disk|))
  }

  lemma {:induction false} WithinAt(segs: seq<Seg>, size: nat, i: nat)
    requires AllWithin(segs, size) && i < |segs|
    ensures segs[i].Within(size)
  {
    if i > 0 {
      WithinAt(segs[1..], size, i - 1);
    }
  }

  lemma {:induction false} WithinFrom(segs: seq<Seg>, size: nat, i: nat)
    requires AllWithin(segs, size) && i <= |segs|
    ensures AllWithin(segs[i..], size)
  {
    if i > 0 {
      WithinFrom(segs, size, i - 1);
      assert segs[i - 1..][1..] == segs[i..];
    } else {
      assert segs[0..] == segs;
    }
  }

  /** What the remaining segments will do completes the request. */
  ghost predicate Completes(p: Progress, start: nat, rest: seq<Seg>, write: bool, served: Store, total: nat)
    requires start + p.n <= |p.store.disk| && AllWithin(rest, |p.store.mem|)
  {
    && served == Serve(p.store, start + p.n, rest, write)
    && total == p.n + Clip(Total(rest), start + p.n, |p.store.disk|)
  }

  lemma CompletesNext(p: Progress, start: nat, rest: seq<Seg>, write: bool, served: Store, total: nat, next: Progress)
    requires start + p.n <= |p.store.disk| && AllWithin(rest, |p.store.mem|) && rest != []
    requires Completes(p, start, rest, write, served, total)
    requires next == Progress(CopySeg(p.store, start + p.n, rest[0], write),
                              p.n + Clip(rest[0].len, start + p.n, |p.store.disk|))
    ensures Completes(next, start, rest[1..], write, served, total)
  {
  }

  lemma AfterNext(s: Store, start: nat, segs: seq<Seg>, write: bool, i: nat, p: Progress)
    requires start <= |s.disk| && AllWithin(segs, |s.mem|) && i < |segs|
    requires p == After(s, start, segs, write, i)
    ensures segs[i].Within(|s.mem|)
    ensures After(s, start, segs, write, i + 1)
         == Progress(CopySeg(p.store, start + p.n, segs[i], write),
                     p.n + Clip(segs[i].len, start + p.n, |s.disk|))
  {
    WithinAt(segs, |s.mem|, i);
  }

  lemma {:induction false} AfterCompletes(s: Store, start: nat, segs: seq<Seg>, write: bool, i: nat,
                                          served: Store, total: nat, p: Progress, rest: seq<Seg>)
    requires start <= |s.disk| && AllWithin(segs, |s.mem|) && i <= |segs|
    requires Completes(Progress(s, 0), start, segs, write, served, total)
    requires p == After(s, start, segs, write, i) && rest == segs[i..] && AllWithin(rest, |s.mem|)
    ensures Completes(p, start, rest, write, served, total)
  {
    if i == 0 {
      assert rest == segs;
    } else {
      var q, before := After(s, start, segs, write, i - 1), segs[i - 1..];
      WithinFrom(segs, |s.mem|, i - 1);
      AfterCompletes(s, start, segs, write, i - 1, served, total, q, before);
      AfterNext(s, start, segs, write, i - 1, q);
      assert before[0] == segs[i - 1] && before[1..] == rest;
      CompletesNext(q, start, before, write, served, total, p);
    }
  }

  /** Serving a request segment by segment from the front is the same as by recursion on
      the segments that remain. */
  lemma AfterAll(s: Store, start: nat, segs: seq<Seg>, write: bool)
    requires start <= |s.disk| && AllWithin(segs, |s.mem|)
    ensures After(s, start, segs, write, |segs|)
         == Progress(Serve(s, start, segs, write), Clip(Total(segs), start, |s.disk|))
  {
    AfterCompletes(s, start, segs, write, |segs|, Serve(s, start, segs, write), Clip(Total(segs), start, |s.disk|),
                   After(s, start, segs, write, |segs|), []);
  }

  /** How blk_update_request answers: true as long as bytes of the request remain. */
  predicate BlkUpdateRequest(segs: seq<Seg>, nrBytes: nat) {
    nrBytes < Total(segs)
  }

  datatype Outcome = Ended | Bug

  class Device {
    const capacity: nat    // in sectors
    const data: array<byte>

    ghost predicate Valid() { data.Length == capacity * SECTOR_SIZE < U32_RANGE }

    /** 112 pages, rounded down to whole sectors. */
    constructor (pageSize: nat)
      requires 112 * pageSize < U32_RANGE
      ensures Valid() && fresh(data)
      ensures capacity == 112 * pageSize / 512 && data.Length == capacity * 512
      ensures pageSize % 32 == 0 ==> data.Length == 112 * pageSize
    {
      capacity := 112 * pageSize / SECTOR_SIZE;
      data := new byte[112 * pageSize / SECTOR_SIZE * SECTOR_SIZE];
    }

    /** do_request. The request starts inside the device. The count never exceeds the size
        of the device, so that it fits an unsigned int. */
    method DoRequest(mem: array<byte>, sector: nat, segs: seq<Seg>, write: bool) returns (nrBytes: nat)
      requires Valid() && mem != data
      requires sector <= capacity && AllWithin(segs, mem.Length)
      modifies data, mem
      ensures nrBytes == Clip(Total(segs), sector * SECTOR_SIZE, data.Length) < U32_RANGE
      ensures Store(data[..], mem[..]) == Serve(Store(old(data[..]), old(mem[..])), sector * SECTOR_SIZE, segs, write)
    {
      ghost var was := Store(data[..], mem[..]);
      var start := sector * SECTOR_SIZE;
      var pos := start;
      nrBytes := 0;
      ghost var now := After(was, start, segs, write, 0);
      for i := 0 to |segs|
        invariant pos == start + nrBytes && now == After(was, start, segs, write, i)
        invariant mem.Length == |was.mem| && data.Length == |was.disk|
        invariant now == Progress(Store(data[..], mem[..]), nrBytes)
      {
        var len := ServeSegment(mem, pos, segs, i, write, was, start, nrBytes);
        pos := pos + len;
        nrBytes := nrBytes + len;
        now := Progress(Store(data[..], mem[..]), nrBytes);
      }
      AfterAll(was, start, segs, write);
    }

    method ServeSegment(mem: array<byte>, pos: nat, segs: seq<Seg>, i: nat, write: bool,
                        ghost was: Store, ghost start: nat, ghost n: nat) returns (len: nat)
      requires Valid() && mem != data && i < |segs| && pos == start + n
      requires start <= |was.disk| && AllWithin(segs, |was.mem|)
      requires Progress(Store(data[..], mem[..]), n) == After(was, start, segs, write, i)
      modifies data, mem
      ensures Progress(Store(data[..], mem[..]), n + len) == After(was, start, segs, write, i + 1)
    {
      AfterNext(was, start, segs, write, i, Progress(Store(data[..], mem[..]), n));
      len := Transfer(mem, pos, segs[i], write);
    }

    /** The body of the loop: the segment is cut off at the end of the device. */
    method Transfer(mem: array<byte>, pos: nat, seg: Seg, write: bool) returns (len: nat)
      requires Valid() && mem != data && pos <= data.Length && seg.Within(mem.Length)
      modifies data, mem
      ensures len == Clip(seg.len, pos, data.Length)
      ensures Store(data[..], mem[..]) == CopySeg(Store(old(data[..]), old(mem[..])), pos, seg, write)
    {
      len := seg.len;
      if pos + len > capacity * SECTOR_SIZE {
        len := capacity * SECTOR_SIZE - pos;
      }
      ghost var was := Store(data[..], mem[..]);
      if write {
        var bs := mem[seg.addr..seg.addr + len];
        CopyWrite(was, pos, seg, bs);
        Memcpy(data, pos, bs);
      } else {
        var bs := data[pos..pos + len];
        CopyRead(was, pos, seg, bs);
        Memcpy(mem, seg.addr, bs);
      }
    }

    /** queue_rq: BUG() is reached exactly when the request extends past the end. */
    method QueueRq(mem: array<byte>, sector: nat, segs: seq<Seg>, write: bool) returns (outcome: Outcome)
      requires Valid() && mem != data
      requires sector <= capacity && AllWithin(segs, mem.Length)
      modifies data, mem
      ensures outcome == Bug <==> sector * 512 + Total(segs) > data.Length
      ensures write ==>
                && data[..] == Put(old(data[..]), sector * 512, Gather(old(mem[..]), segs))
                && mem[..] == old(mem[..])
      ensures !write ==>
                && mem[..] == Scatter(old(mem[..]), segs, Get(old(data[..]), sector * 512, Total(segs)))
                && data[..] == old(data[..])
    {
      ghost var was := Store(data[..], mem[..]);
      var nrBytes := DoRequest(mem, sector, segs, write);
      if write {
        ServeWrites(was, sector * SECTOR_SIZE, segs);
      } else {
        ServeReads(was, sector * SECTOR_SIZE, segs);
      }
      outcome := if BlkUpdateRequest(segs, nrBytes) then Bug else Ended;
    }
  }

  /** The length that is passed to memcpy, in 64-bit arithmetic. */
  function CopyLength(pos: nat, len: nat, size: nat): int {
    if pos + len > size then (size - pos) % 0x1_0000_0000_0000_0000 else len
  }

  /** Nothing checks where a request starts. Its copies stay inside the device if and only
      if it starts there; otherwise the length wraps around. */
  lemma CopyFitsIff(pos: nat, len: nat, size: nat)
    requires pos < 0x8000_0000_0000_0000 && size < 0x8000_0000_0000_0000
    ensures pos + CopyLength(pos, len, size) <= size <==> pos <= size
    ensures pos <= size ==> CopyLength(pos, len, size) == Clip(len, pos, size)
  {
    if pos > size {
      assert (size - pos) % 0x1_0000_0000_0000_0000 == size - pos + 0x1_0000_0000_0000_0000;
    }
  }

  // ----- Segments do not show -----

  /** The `n` bytes from `pos` on, cut off at the end of the device. */
  function Get(data: seq<byte>, pos: nat, n: nat): (bs: seq<byte>)
    requires pos <= |data|
  {
    data[pos..pos + Clip(n, pos, |data|)]
  }

  /** A write stores the concatenated segments in one piece and changes nothing else. */
  lemma {:induction false} ServeWrites(s: Store, pos: nat, segs: seq<Seg>)
    requires pos <= |s.disk| && AllWithin(segs, |s.mem|)
    ensures Serve(s, pos, segs, true) == Store(Put(s.disk, pos, Gather(s.mem, segs)), s.mem)
    decreases |segs|
  {
    if segs == [] {
      PutNothing(s.disk, pos);
    } else {
      var k, s' := Clip(segs[0].len, pos, |s.disk|), CopySeg(s, pos, segs[0], true);
      ServeWrites(s', pos + k, segs[1..]);
      WritesStep(s, s', pos, k, segs, Gather(s'.mem, segs[1..]));
    }
  }

  lemma WritesStep(s: Store, s': Store, pos: nat, k: nat, segs: seq<Seg>, others: seq<byte>)
    requires pos <= |s.disk| && AllWithin(segs, |s.mem|) && segs != []
    requires k == Clip(segs[0].len, pos, |s.disk|) && s' == CopySeg(s, pos, segs[0], true)
    requires others == Gather(s'.mem, segs[1..])
    requires Serve(s', pos + k, segs[1..], true) == Store(Put(s'.disk, pos + k, others), s'.mem)
    ensures Serve(s, pos, segs, true) == Store(Put(s.disk, pos, Gather(s.mem, segs)), s.mem)
  {
    CopyWrites(s, s', pos, k, segs, s.mem[segs[0].addr..segs[0].addr + segs[0].len], others);
  }

  lemma PutNothing(data: seq<byte>, pos: nat)
    requires pos <= |data|
    ensures Put(data, pos, []) == data
  {
  }

  lemma CopyWrites(s: Store, s': Store, pos: nat, k: nat, segs: seq<Seg>, first: seq<byte>, others: seq<byte>)
    requires pos <= |s.disk| && AllWithin(segs, |s.mem|) && segs != []
    requires k == Clip(segs[0].len, pos, |s.disk|) && s' == CopySeg(s, pos, segs[0], true)
    requires first == s.mem[segs[0].addr..segs[0].addr + segs[0].len] && others == Gather(s.mem, segs[1..])
    ensures s'.mem == s.mem
    ensures Put(s'.disk, pos + k, others) == Put(s.disk, pos, Gather(s.mem, segs))
  {
    WrittenPart(s, pos, segs[0], first, k);
    GatherCons(s.mem, segs, first, others);
    PutStep(s.disk, pos, first, others, k, s'.disk);
  }

  lemma WrittenPart(s: Store, pos: nat, seg: Seg, bs: seq<byte>, k: nat)
    requires pos <= |s.disk| && seg.Within(|s.mem|) && k == Clip(seg.len, pos, |s.disk|)
    requires bs == s.mem[seg.addr..seg.addr + seg.len]
    ensures CopySeg(s, pos, seg, true) == Store(Overwrite(s.disk, pos, bs[..k]), s.mem)
  {
    SubSlice(s.mem, seg.addr, seg.addr + seg.len, 0, k);
  }

  lemma PutStep(data: seq<byte>, pos: nat, a: seq<byte>, b: seq<byte>, k: nat, next: seq<byte>)
    requires pos <= |data| && k == Clip(|a|, pos, |data|) && next == Overwrite(data, pos, a[..k])
    ensures Put(data, pos, a + b) == Put(next, pos + k, b)
  {
    var n := Clip(|b|, pos + k, |data|);
    ClipConcat(a, b, |data| - pos);
    OverwriteAdjacent(data, pos, a[..k], b[..n]);
  }

  lemma ClipConcat<T>(a: seq<T>, b: seq<T>, room: nat)
    ensures var k := Min(|a|, room);
            (a + b)[..Min(|a + b|, room)] == a[..k] + b[..Min(|b|, room - k)]
  {
  }

  /** A read fills the segments with one piece of the device and leaves that unchanged. */
  lemma {:induction false} ServeReads(s: Store, pos: nat, segs: seq<Seg>)
    requires pos <= |s.disk| && AllWithin(segs, |s.mem|)
    ensures Serve(s, pos, segs, false) == Store(s.disk, Scatter(s.mem, segs, Get(s.disk, pos, Total(segs))))
    decreases |segs|
  {
    if segs != [] {
      var k, s' := Clip(segs[0].len, pos, |s.disk|), CopySeg(s, pos, segs[0], false);
      ServeReads(s', pos + k, segs[1..]);
      CopyReads(s, s', pos, k, segs, Get(s.disk, pos, Total(segs)), Get(s.disk, pos + k, Total(segs[1..])));
    }
  }

  lemma CopyReads(s: Store, s': Store, pos: nat, k: nat, segs: seq<Seg>, bs: seq<byte>, others: seq<byte>)
    requires pos <= |s.disk| && AllWithin(segs, |s.mem|) && segs != []
    requires k == Clip(segs[0].len, pos, |s.disk|) && s' == CopySeg(s, pos, segs[0], false)
    requires bs == Get(s.disk, pos, Total(segs)) && others == Get(s.disk, pos + k, Total(segs[1..]))
    ensures s'.disk == s.disk
    ensures Scatter(s'.mem, segs[1..], others) == Scatter(s.mem, segs, bs)
  {
    GetStep(s.disk, pos, segs[0].len, Total(segs[1..]), k, bs, others);
    CopyRead(s, pos, segs[0], bs[..k]);
    ScatterNext(s.mem, segs, bs, k, s'.mem, others);
  }

  lemma ScatterNext(mem: seq<byte>, segs: seq<Seg>, bs: seq<byte>, k: nat, next: seq<byte>, others: seq<byte>)
    requires AllWithin(segs, |mem|) && segs != [] && k == Min(segs[0].len, |bs|)
    requires next == Overwrite(mem, segs[0].addr, bs[..k]) && others == bs[k..]
    ensures Scatter(mem, segs, bs) == Scatter(next, segs[1..], others)
  {
  }

  lemma GetStep(data: seq<byte>, pos: nat, a: nat, b: nat, k: nat, bs: seq<byte>, others: seq<byte>)
    requires pos <= |data| && k == Clip(a, pos, |data|)
    requires bs == Get(data, pos, a + b) && others == Get(data, pos + k, b)
    ensures k == Min(a, |bs|) && bs[..k] == data[pos..pos + k] && bs[k..] == others
  {
    var n := Clip(a + b, pos, |data|);
    assert n == k + Clip(b, pos + k, |data|);
    SubSlice(data, pos, pos + n, 0, k);
    SubSlice(data, pos, pos + n, k, n);
  }

  /** Memory apart from the segments is not touched by a read. */
  lemma {:induction false} ScatterFrame(mem: seq<byte>, segs: seq<Seg>, bs: seq<byte>, s: Seg)
    requires AllWithin(segs, |mem|) && s.Within(|mem|) && ApartFrom(s, segs)
    ensures Scatter(mem, segs, bs)[s.addr..s.addr + s.len] == mem[s.addr..s.addr + s.len]
    decreases |segs|
  {
    if segs != [] {
      var k := Min(segs[0].len, |bs|);
      ScatterFrame(Overwrite(mem, segs[0].addr, bs[..k]), segs[1..], bs[k..], s);
      OverwriteApart(mem, segs[0], bs[..k], s);
    }
  }

  lemma OverwriteApart(mem: seq<byte>, w: Seg, bs: seq<byte>, s: Seg)
    requires w.Within(|mem|) && s.Within(|mem|) && s.Apart(w) && |bs| <= w.len
    ensures Overwrite(mem, w.addr, bs)[s.addr..s.addr + s.len] == mem[s.addr..s.addr + s.len]
  {
    var r := Overwrite(mem, w.addr, bs);
    OverwriteAt(mem, w.addr, bs);
    if s.addr + s.len <= w.addr {
      SameSlice(r, mem, 0, w.addr, s.addr, s.addr + s.len);
    } else {
      assert r[w.addr + |bs|..] == r[w.addr + |bs|..|mem|] && mem[w.addr + |bs|..] == mem[w.addr + |bs|..|mem|];
      SameSlice(r, mem, w.addr + |bs|, |mem|, s.addr, s.addr + s.len);
    }
  }

  /** If the segments do not overlap, they hold the bytes read, followed by what they held
      before where the device had no more. */
  lemma {:induction false} GatherScattered(mem: seq<byte>, segs: seq<Seg>, bs: seq<byte>)
    requires AllWithin(segs, |mem|) && Disjoint(segs) && |bs| <= Total(segs)
    ensures Gather(Scatter(mem, segs, bs), segs) == bs + Gather(mem, segs)[|bs|..]
    decreases |segs|
  {
    if segs != [] {
      var k := Min(segs[0].len, |bs|);
      var mem1 := Overwrite(mem, segs[0].addr, bs[..k]);
      var r := Scatter(mem1, segs[1..], bs[k..]);
      GatherScattered(mem1, segs[1..], bs[k..]);
      GatherApart(mem, segs[0], bs[..k], segs[1..]);
      HeadFilled(mem, mem1, r, segs[0], segs[1..], bs, k);
      ScatteredStep(mem, r, segs, bs, k);
    }
  }

  lemma ScatteredStep(mem: seq<byte>, r: seq<byte>, segs: seq<Seg>, bs: seq<byte>, k: nat)
    requires AllWithin(segs, |mem|) && segs != [] && |bs| <= Total(segs)
    requires |r| == |mem| && k == Min(segs[0].len, |bs|)
    requires r[segs[0].addr..segs[0].addr + segs[0].len]
          == bs[..k] + mem[segs[0].addr..segs[0].addr + segs[0].len][k..]
    requires Gather(r, segs[1..]) == bs[k..] + Gather(mem, segs[1..])[|bs| - k..]
    ensures Gather(r, segs) == bs + Gather(mem, segs)[|bs|..]
  {
    var head, others := mem[segs[0].addr..segs[0].addr + segs[0].len], Gather(mem, segs[1..]);
    GatherCons(r, segs, bs[..k] + head[k..], bs[k..] + others[|bs| - k..]);
    GatherCons(mem, segs, head, others);
    Rejoin(bs, k, head, others);
  }

  lemma GatherCons(mem: seq<byte>, segs: seq<Seg>, a: seq<byte>, b: seq<byte>)
    requires AllWithin(segs, |mem|) && segs != []
    requires mem[segs[0].addr..segs[0].addr + segs[0].len] == a && Gather(mem, segs[1..]) == b
    ensures Gather(mem, segs) == a + b
  {
  }

  lemma HeadFilled(mem: seq<byte>, mem1: seq<byte>, r: seq<byte>, s: Seg, segs: seq<Seg>, bs: seq<byte>, k: nat)
    requires s.Within(|mem|) && AllWithin(segs, |mem|) && ApartFrom(s, segs) && k <= s.len && k <= |bs|
    requires mem1 == Overwrite(mem, s.addr, bs[..k]) && r == Scatter(mem1, segs, bs[k..])
    ensures r[s.addr..s.addr + s.len] == bs[..k] + mem[s.addr..s.addr + s.len][k..]
  {
    ScatterFrame(mem1, segs, bs[k..], s);
    HeadOverwritten(mem, s, bs[..k]);
  }

  /** Writing to one segment does not change what segments apart from it hold. */
  lemma {:induction false} GatherApart(mem: seq<byte>, w: Seg, bs: seq<byte>, segs: seq<Seg>)
    requires w.Within(|mem|) && |bs| <= w.len && AllWithin(segs, |mem|) && ApartFrom(w, segs)
    ensures Gather(Overwrite(mem, w.addr, bs), segs) == Gather(mem, segs)
    decreases |segs|
  {
    if segs != [] {
      GatherApart(mem, w, bs, segs[1..]);
      OverwriteApart(mem, w, bs, segs[0]);
    }
  }

  lemma HeadOverwritten(mem: seq<byte>, s: Seg, bs: seq<byte>)
    requires s.Within(|mem|) && |bs| <= s.len
    ensures Overwrite(mem, s.addr, bs)[s.addr..s.addr + s.len] == bs + mem[s.addr..s.addr + s.len][|bs|..]
  {
  }

  lemma Rejoin(bs: seq<byte>, k: nat, head: seq<byte>, others: seq<byte>)
    requires k == Min(|head|, |bs|) && |bs| - k <= |others|
    ensures (bs[..k] + head[k..]) + (bs[k..] + others[|bs| - k..]) == bs + (head + others)[|bs|..]
  {
    if k == |bs| {
      assert (head + others)[k..] == head[k..] + others;
    } else {
      assert (head + others)[|bs|..] == others[|bs| - k..];
      assert bs[..k] + bs[k..] == bs;
    }
  }

  // ----- Runs of requests -----

  datatype Write = Write(pos: nat, bytes: seq<byte>) {

    predicate Covers(x: nat) { pos <= x < pos + |bytes| }
  }

  predicate StartInside(log: seq<Write>, size: nat) {
    forall i :: 0 <= i < |log| ==> log[i].pos <= size
  }

  function PutAll(data: seq<byte>, log: seq<Write>): (r: seq<byte>)
    requires StartInside(log, |data|)
    ensures |r| == |data|
    decreases |log|
  {
    if log == [] then data
    else Put(PutAll(data, log[..|log| - 1]), log[|log| - 1].pos, log[|log| - 1].bytes)
  }

  /** The byte that the latest of the writes covering `x` has there. */
  function Latest(log: seq<Write>, x: nat, initial: byte): byte {
    if log == [] then initial
    else if log[|log| - 1].Covers(x) then log[|log| - 1].bytes[x - log[|log| - 1].pos]
    else Latest(log[..|log| - 1], x, initial)
  }

  /** After any run of requests the device is a last-writer-wins map of bytes. */
  lemma {:induction false} LastWriterWins(data: seq<byte>, log: seq<Write>, x: nat)
    requires StartInside(log, |data|) && x < |data|
    ensures PutAll(data, log)[x] == Latest(log, x, data[x])
    decreases |log|
  {
    if log != [] {
      LastWriterWins(data, log[..|log| - 1], x);
      PutAt(PutAll(data, log[..|log| - 1]), log[|log| - 1], x);
    }
  }

  lemma PutAt(data: seq<byte>, w: Write, x: nat)
    requires w.pos <= |data| && x < |data|
    ensures Put(data, w.pos, w.bytes)[x] == if w.Covers(x) then w.bytes[x - w.pos] else data[x]
  {
    var bs := w.bytes[..Clip(|w.bytes|, w.pos, |data|)];
    var r := Overwrite(data, w.pos, bs);
    if w.pos <= x < w.pos + |bs| {
      assert r[w.pos..w.pos + |bs|][x - w.pos] == r[x];
    }
  }

  /** A request together with the memory its segments lie in. */
  datatype Request = Request(pos: nat, mem: seq<byte>, segs: seq<Seg>, write: bool) {

    predicate Fits(size: nat) { pos <= size && AllWithin(segs, |mem|) }
  }

  predicate AllFit(rqs: seq<Request>, size: nat) {
    forall i :: 0 <= i < |rqs| ==> rqs[i].Fits(size)
  }

  /** The device after serving the requests in order. */
  function ServeAll(data: seq<byte>, rqs: seq<Request>): (r: seq<byte>)
    requires AllFit(rqs, |data|)
    ensures |r| == |data|
    decreases |rqs|
  {
    if rqs == [] then data
    else
      var rq := rqs[|rqs| - 1];
      Serve(Store(ServeAll(data, rqs[..|rqs| - 1]), rq.mem), rq.pos, rq.segs, rq.write).disk
  }

  /** The write requests, without their segmentation. */
  function WritesOf(rqs: seq<Request>, size: nat): (log: seq<Write>)
    requires AllFit(rqs, size)
    ensures StartInside(log, size)
    decreases |rqs|
  {
    if rqs == [] then []
    else
      var rq := rqs[|rqs| - 1];
      WritesOf(rqs[..|rqs| - 1], size) + if rq.write then [Write(rq.pos, Gather(rq.mem, rq.segs))] else []
  }

  /** Any run of requests amounts to its writes, in order: reads and segmentation drop out. */
  lemma {:induction false} RunIsItsWrites(data: seq<byte>, rqs: seq<Request>)
    requires AllFit(rqs, |data|)
    ensures ServeAll(data, rqs) == PutAll(data, WritesOf(rqs, |data|))
    decreases |rqs|
  {
    if rqs != [] {
      var init, rq := rqs[..|rqs| - 1], rqs[|rqs| - 1];
      var before := ServeAll(data, init);
      RunIsItsWrites(data, init);
      if rq.write {
        ServeWrites(Store(before, rq.mem), rq.pos, rq.segs);
        PutAllNext(data, WritesOf(init, |data|), Write(rq.pos, Gather(rq.mem, rq.segs)));
      } else {
        ServeReads(Store(before, rq.mem), rq.pos, rq.segs);
        assert WritesOf(init, |data|) + [] == WritesOf(init, |data|);
      }
    }
  }

  lemma PutAllNext(data: seq<byte>, log: seq<Write>, w: Write)
    requires StartInside(log, |data|) && w.pos <= |data|
    ensures StartInside(log + [w], |data|)
    ensures PutAll(data, log + [w]) == Put(PutAll(data, log), w.pos, w.bytes)
  {
    assert (log + [w])[..|log|] == log;
  }

  /** A read under any segmentation, after any run of requests under any other: byte `i` of
      the segments is the latest byte written at the place it is read from. */
  lemma ReadsBackLatest(data: seq<byte>, rqs: seq<Request>, pos: nat, mem: seq<byte>, segs: seq<Seg>, i: nat)
    requires AllFit(rqs, |data|) && pos + Total(segs) <= |data| && i < Total(segs)
    requires AllWithin(segs, |mem|) && Disjoint(segs)
    ensures var after := Serve(Store(ServeAll(data, rqs), mem), pos, segs, false);
            Gather(after.mem, segs)[i] == Latest(WritesOf(rqs, |data|), pos + i, data[pos + i])
  {
    var disk := ServeAll(data, rqs);
    RunIsItsWrites(data, rqs);
    LastWriterWins(data, WritesOf(rqs, |data|), pos + i);
    ServeReads(Store(disk, mem), pos, segs);
    var bs := Get(disk, pos, Total(segs));
    assert bs[i] == disk[pos + i];
    FilledAt(mem, segs, bs, i);
  }

  lemma FilledAt(mem: seq<byte>, segs: seq<Seg>, bs: seq<byte>, i: nat)
    requires AllWithin(segs, |mem|) && Disjoint(segs) && i < |bs| <= Total(segs)
    ensures Gather(Scatter(mem, segs, bs), segs)[i] == bs[i]
  {
    GatherScattered(mem, segs, bs);
  }

  /** Writes to disjoint ranges commute. */
  lemma DisjointWritesCommute(data: seq<byte>, a: Write, b: Write)
    requires a.pos <= |data| && b.pos <= |data|
    requires a.pos + |a.bytes| <= b.pos || b.pos + |b.bytes| <= a.pos
    ensures Put(Put(data, a.pos, a.bytes), b.pos, b.bytes) == Put(Put(data, b.pos, b.bytes), a.pos, a.bytes)
  {
    var ab := Put(Put(data, a.pos, a.bytes), b.pos, b.bytes);
    var ba := Put(Put(data, b.pos, b.bytes), a.pos, a.bytes);
    forall x | 0 <= x < |data|
      ensures ab[x] == ba[x]
    {
      PutAt(data, a, x);
      PutAt(data, b, x);
      PutAt(Put(data, a.pos, a.bytes), b, x);
      PutAt(Put(data, b.pos, b.bytes), a, x);
    }
  }
}
