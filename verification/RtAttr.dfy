/** Routing attributes: rtattr_add (netlink/set_route.c) appends type-length-value
    records in place, parseRtattr (netlink/netmon.c) walks them back into a table. */
module RtAttr {
  import opened Bytes

  const RTATTR := 4   // sizeof(struct rtattr), already a multiple of the alignment
  const NLMSGHDR := 16

  datatype Attr = Attr(typ: int, payload: seq<byte>) {

    /** RTA_LENGTH: the length stored in the header, padding excluded. */
    function Len(): nat { RTATTR + |payload| }

    /** The space the attribute takes up, padding included. */
    function Size(): (n: nat)
      ensures Len() <= n < Len() + 4
    {
      AlignUp(Len())
    }

    /** rta_len and rta_type are unsigned 16-bit fields. */
    predicate Representable() { Len() < U16_RANGE && 0 <= typ < U16_RANGE }
  }

  function MsgLen(m: seq<byte>): (n: nat)
    requires |m| >= NLMSGHDR
    ensures n < U32_RANGE
  {
    U32(m, 0)
  }

  /** NLMSG_TAIL as an offset. */
  function Tail(m: seq<byte>): (t: nat)
    requires |m| >= NLMSGHDR
    ensures MsgLen(m) <= t < MsgLen(m) + 4
  {
    AlignUp(MsgLen(m))
  }

  // ----- The format, as a relation so that padding bytes may hold anything -----

  /** The bytes of `m` from `off` to `end` are exactly the attributes `attrs`. */
  ghost predicate Laid(m: seq<byte>, off: nat, end: nat, attrs: seq<Attr>)
    decreases |attrs|
  {
    && off <= end <= |m|
    && if attrs == [] then off == end else
       && off + attrs[0].Size() <= end
       && AttrAt(m, off, attrs[0])
       && Laid(m, off + attrs[0].Size(), end, attrs[1..])
  }

  ghost predicate AttrAt(m: seq<byte>, off: nat, a: Attr)
    requires off + a.Len() <= |m|
  {
    && U16(m, off) == a.Len()
    && U16(m, off + 2) == a.typ
    && m[off + RTATTR..off + a.Len()] == a.payload
  }

  function TotalSize(attrs: seq<Attr>): nat {
    if attrs == [] then 0 else attrs[0].Size() + TotalSize(attrs[1..])
  }

  lemma {:induction false} LaidFrame(m: seq<byte>, m': seq<byte>, off: nat, end: nat, attrs: seq<Attr>)
    requires Laid(m, off, end, attrs)
    requires end <= |m'| && m[off..end] == m'[off..end]
    ensures Laid(m', off, end, attrs)
    decreases |attrs|
  {
    if attrs != [] {
      var next := off + attrs[0].Size();
      SameSlice(m, m', off, end, off, off + 2);
      SameSlice(m, m', off, end, off + 2, off + 4);
      SameSlice(m, m', off, end, off + RTATTR, off + attrs[0].Len());
      SameSlice(m, m', off, end, next, end);
      LaidFrame(m, m', next, end, attrs[1..]);
    }
  }

  /** Bytes determine the attributes: the format has no ambiguity. */
  lemma {:induction false} LaidUnique(m: seq<byte>, off: nat, end: nat, a: seq<Attr>, b: seq<Attr>)
    requires Laid(m, off, end, a) && Laid(m, off, end, b)
    ensures a == b
    decreases |a|
  {
    if a != [] && b != [] {
      assert a[0] == b[0];
      LaidUnique(m, off + a[0].Size(), end, a[1..], b[1..]);
      assert a == [a[0]] + a[1..] && b == [b[0]] + b[1..];
    }
  }

  // ----- rtattr_add -----

  /** The bound check of rtattr_add. */
  predicate HasRoom(m: seq<byte>, maxlen: nat, a: Attr)
    requires |m| >= NLMSGHDR
  {
    Tail(m) + a.Size() <= maxlen
  }

  /** The bytes that rtattr_add stores for `a`. Both header fields are 16 bits wide. */
  function Record(a: Attr): (r: seq<byte>)
    ensures |r| == a.Len()
  {
    Le16(a.Len()) + Le16(a.typ) + a.payload
  }

  /** The buffer after the record has been stored. */
  function Stored(m: seq<byte>, a: Attr): (r: seq<byte>)
    requires |m| >= NLMSGHDR && HasRoom(m, |m|, a)
    ensures |r| == |m|
  {
    Overwrite(m, Tail(m), Record(a))
  }

  /** The buffer after a successful rtattr_add: the padding keeps what it held before. The
      message length is read once more after the record has been stored. */
  function WithAttr(m: seq<byte>, a: Attr): (r: seq<byte>)
    requires |m| >= NLMSGHDR && HasRoom(m, |m|, a)
    ensures |r| == |m|
  {
    Overwrite(Stored(m, a), 0, Le32(Tail(Stored(m, a)) + a.Size()))
  }

  /** Unless the message claims to be empty, that makes no difference. */
  lemma WithAttrIs(m: seq<byte>, a: Attr)
    requires |m| >= NLMSGHDR && HasRoom(m, |m|, a) && MsgLen(m) > 0
    ensures WithAttr(m, a) == Overwrite(Stored(m, a), 0, Le32(Tail(m) + a.Size()))
  {
    var r := Stored(m, a);
    OverwriteAt(m, Tail(m), Record(a));
    SliceIndex(r, m, 0, Tail(m));
  }

  method RtattrAdd(n: array<byte>, maxlen: nat, typ: int, data: seq<byte>) returns (rc: int)
    requires NLMSGHDR <= n.Length && maxlen <= n.Length && maxlen < INT_RANGE
    requires RTATTR + |data| < INT_RANGE && Tail(n[..]) + Attr(typ, data).Size() < U32_RANGE
    modifies n
    ensures rc == if HasRoom(old(n[..]), maxlen, Attr(typ, data)) then 0 else -1
    ensures rc == 0 <==> (MsgLen(old(n[..])) + 3) / 4 * 4 + (4 + |data| + 3) / 4 * 4 <= maxlen
    ensures rc != 0 ==> n[..] == old(n[..])
    ensures rc == 0 ==> n[..] == WithAttr(old(n[..]), Attr(typ, data))
  {
    var len := RTATTR + |data|;
    AlignFormula(U32(n[..], 0));
    AlignFormula(len);
    if AlignUp(U32(n[..], 0)) + AlignUp(len) > maxlen {
      return -1;
    }
    StoreRecord(n, AlignUp(U32(n[..], 0)), len, typ, data);
    Memcpy(n, 0, Le32(AlignUp(U32(n[..], 0)) + AlignUp(len)));
    return 0;
  }

  /** The stores through `rta`: type first, then length, then the payload if there is one. */
  method StoreRecord(n: array<byte>, tail: nat, len: nat, typ: int, data: seq<byte>)
    requires len == RTATTR + |data| && tail + len <= n.Length
    modifies n
    ensures n[..] == Overwrite(old(n[..]), tail, Record(Attr(typ, data)))
  {
    ghost var m := n[..];
    var lenField, typField := Le16(len), Le16(typ);
    Memcpy(n, tail + 2, typField);
    Memcpy(n, tail, lenField);
    OverwriteAdjacent(m, tail, lenField, typField);
    if |data| != 0 {
      Memcpy(n, tail + RTATTR, data);
      OverwriteAdjacent(m, tail, lenField + typField, data);
    } else {
      assert lenField + typField + data == lenField + typField;
    }
  }

  /** The new message length, which is aligned. */
  lemma AddLength(m: seq<byte>, r: seq<byte>, tail: nat, a: Attr)
    requires |m| >= NLMSGHDR && HasRoom(m, |m|, a) && |m| < INT_RANGE
    requires tail == Tail(m) >= NLMSGHDR && r == WithAttr(m, a)
    ensures MsgLen(r) == Tail(r) == tail + a.Size()
  {
    AlignSum(MsgLen(m), a.Len());
    WithAttrIs(m, a);
    LengthStored(Stored(m, a), tail + a.Size());
  }

  lemma LengthStored(m: seq<byte>, len: nat)
    requires |m| >= NLMSGHDR && len < U32_RANGE
    ensures U32(Overwrite(m, 0, Le32(len)), 0) == len
  {
    var r := Overwrite(m, 0, Le32(len));
    assert r[0..4] == Le32(len);
    LoadStored32(r, 0, len);
  }

  /** What a successful rtattr_add stores and leaves untouched. */
  lemma AddFrame(m: seq<byte>, a: Attr)
    requires |m| >= NLMSGHDR && Tail(m) >= NLMSGHDR && HasRoom(m, |m|, a)
    ensures WithAttr(m, a)[4..Tail(m)] == m[4..Tail(m)]
    ensures WithAttr(m, a)[Tail(m)..Tail(m) + a.Len()] == Record(a)
    ensures WithAttr(m, a)[Tail(m) + a.Len()..] == m[Tail(m) + a.Len()..]
  {
    WithAttrIs(m, a);
    OverwriteHeader(m, Tail(m), Record(a), Le32(Tail(m) + a.Size()));
  }

  /** The header and payload found where rtattr_add has stored a record. */
  lemma RecordStored(m: seq<byte>, at: nat, a: Attr)
    requires at + a.Len() <= |m| && m[at..at + a.Len()] == Record(a)
    ensures U16(m, at) == a.Len() % U16_RANGE
    ensures U16(m, at + 2) == a.typ % U16_RANGE
    ensures m[at + RTATTR..at + a.Len()] == a.payload
  {
    RecordParts(m, at, Le16(a.Len()), Le16(a.typ), a.payload);
    LoadStored16(m, at, a.Len());
    LoadStored16(m, at + 2, a.typ);
  }

  lemma AttrAtIff(m: seq<byte>, at: nat, a: Attr)
    requires at + a.Len() <= |m| && m[at..at + a.Len()] == Record(a)
    ensures AttrAt(m, at, a) == a.Representable()
  {
    RecordStored(m, at, a);
  }

  /** rtattr_add extends the laid-out attributes by the new one if and only if the
      type and the length fit their 16-bit fields. */
  lemma AddLaysOut(m: seq<byte>, r: seq<byte>, base: nat, tail: nat, attrs: seq<Attr>, a: Attr)
    requires |m| >= NLMSGHDR && HasRoom(m, |m|, a) && NLMSGHDR <= base
    requires tail == Tail(m) && r == WithAttr(m, a)
    requires Laid(m, base, tail, attrs)
    ensures Laid(r, base, tail + a.Size(), attrs + [a]) == a.Representable()
  {
    AddFrame(m, a);
    StoredLaysOut(m, r, base, tail, attrs, a);
  }

  lemma StoredLaysOut(m: seq<byte>, r: seq<byte>, base: nat, tail: nat, attrs: seq<Attr>, a: Attr)
    requires 4 <= base && tail + a.Size() <= |r| && |m| == |r|
    requires Laid(m, base, tail, attrs)
    requires r[4..tail] == m[4..tail] && r[tail..tail + a.Len()] == Record(a)
    ensures Laid(r, base, tail + a.Size(), attrs + [a]) == a.Representable()
  {
    SameSlice(m, r, 4, tail, base, tail);
    LaidFrame(m, r, base, tail, attrs);
    AttrAtIff(r, tail, a);
    LaidSnocIff(r, base, tail, tail + a.Size(), attrs, a);
  }

  /** Given the attributes before it, one more attribute is laid out at the end exactly
      when it is stored there. */
  lemma {:induction false} LaidSnocIff(m: seq<byte>, off: nat, mid: nat, end: nat, attrs: seq<Attr>, a: Attr)
    requires Laid(m, off, mid, attrs) && end == mid + a.Size() <= |m|
    ensures Laid(m, off, end, attrs + [a]) == AttrAt(m, mid, a)
    decreases |attrs|
  {
    if attrs == [] {
      assert attrs + [a] == [a];
      assert Laid(m, end, end, [a][1..]);
    } else {
      assert (attrs + [a])[1..] == attrs[1..] + [a];
      LaidSnocIff(m, off + attrs[0].Size(), mid, end, attrs[1..], a);
    }
  }

  // ----- Any sequence of rtattr_add calls -----

  /** The buffer after a sequence of calls, and the attributes of those that succeeded. */
  function AddEach(m: seq<byte>, maxlen: nat, calls: seq<Attr>): (r: (seq<byte>, seq<Attr>))
    requires NLMSGHDR <= maxlen <= |m|
    ensures |r.0| == |m|
    decreases |calls|
  {
    if calls == [] then (m, [])
    else if HasRoom(m, maxlen, calls[0]) then
      var (r, added) := AddEach(WithAttr(m, calls[0]), maxlen, calls[1..]);
      (r, [calls[0]] + added)
    else AddEach(m, maxlen, calls[1..])
  }

  /** Only attributes that fit the fields of their headers can be laid out. */
  lemma {:induction false} LaidRepresentable(m: seq<byte>, off: nat, end: nat, attrs: seq<Attr>)
    requires Laid(m, off, end, attrs)
    ensures AllRepresentable(attrs)
    decreases |attrs|
  {
    if attrs != [] {
      LaidRepresentable(m, off + attrs[0].Size(), end, attrs[1..]);
    }
  }

  predicate AllRepresentable(attrs: seq<Attr>) {
    attrs == [] || (attrs[0].Representable() && AllRepresentable(attrs[1..]))
  }

  lemma {:induction false} AllRepresentableConcat(a: seq<Attr>, b: seq<Attr>)
    ensures AllRepresentable(a + b) <==> AllRepresentable(a) && AllRepresentable(b)
  {
    if a == [] {
      assert a + b == b;
    } else {
      assert (a + b)[1..] == a[1..] + b;
      AllRepresentableConcat(a[1..], b);
    }
  }

  /** Whatever the buffer held, and whatever the calls: the attribute region, which the
      message length ends, holds the accepted attributes in order if and only if each of
      them fits the 16-bit fields of its header. */
  lemma AddEachLaysOut(m: seq<byte>, maxlen: nat, base: nat, attrs: seq<Attr>, calls: seq<Attr>)
    requires NLMSGHDR <= base && NLMSGHDR <= maxlen <= |m| < INT_RANGE
    requires Laid(m, base, Tail(m), attrs)
    ensures var (r, added) := AddEach(m, maxlen, calls);
            Laid(r, base, Tail(r), attrs + added) <==> AllRepresentable(added)
  {
    var (r, added) := AddEach(m, maxlen, calls);
    if AllRepresentable(added) {
      AddEachLaid(m, maxlen, base, attrs, calls);
    }
    if Laid(r, base, Tail(r), attrs + added) {
      LaidRepresentable(r, base, Tail(r), attrs + added);
      AllRepresentableConcat(attrs, added);
    }
  }

  lemma {:induction false} AddEachLaid(m: seq<byte>, maxlen: nat, base: nat, attrs: seq<Attr>, calls: seq<Attr>)
    requires NLMSGHDR <= base && NLMSGHDR <= maxlen <= |m| < INT_RANGE
    requires Laid(m, base, Tail(m), attrs) && AllRepresentable(AddEach(m, maxlen, calls).1)
    ensures var (r, added) := AddEach(m, maxlen, calls);
            Laid(r, base, Tail(r), attrs + added)
    decreases |calls|
  {
    if calls == [] {
      assert attrs + [] == attrs;
    } else if HasRoom(m, maxlen, calls[0]) {
      var r := WithAttr(m, calls[0]);
      var added := AddEach(r, maxlen, calls[1..]).1;
      assert ([calls[0]] + added)[1..] == added;
      AddStep(m, r, base, Tail(m), Tail(r), attrs, calls[0]);
      AddEachLaid(r, maxlen, base, attrs + [calls[0]], calls[1..]);
      AddOneMore(attrs, calls[0], added);
    } else {
      AddEachLaid(m, maxlen, base, attrs, calls[1..]);
    }
  }

  /** The message never outgrows its bound, nor shrinks. */
  lemma {:induction false} AddEachTail(m: seq<byte>, maxlen: nat, calls: seq<Attr>)
    requires NLMSGHDR <= maxlen <= |m| < INT_RANGE && NLMSGHDR <= Tail(m) <= |m|
    ensures Tail(m) <= Tail(AddEach(m, maxlen, calls).0) <= |m|
    decreases |calls|
  {
    if calls != [] {
      if HasRoom(m, maxlen, calls[0]) {
        var r := WithAttr(m, calls[0]);
        AddLength(m, r, Tail(m), calls[0]);
        AddEachTail(r, maxlen, calls[1..]);
      } else {
        AddEachTail(m, maxlen, calls[1..]);
      }
    }
  }

  lemma AddOneMore(attrs: seq<Attr>, a: Attr, added: seq<Attr>)
    ensures attrs + [a] + added == attrs + ([a] + added)
  {
  }

  lemma AddStep(m: seq<byte>, r: seq<byte>, base: nat, tail: nat, end: nat, attrs: seq<Attr>, a: Attr)
    requires NLMSGHDR <= base && NLMSGHDR <= |m| < INT_RANGE && HasRoom(m, |m|, a)
    requires tail == Tail(m) && r == WithAttr(m, a) && end == Tail(r)
    requires Laid(m, base, tail, attrs) && a.Representable()
    ensures Laid(r, base, end, attrs + [a])
  {
    AddLaysOut(m, r, base, tail, attrs, a);
    AddLength(m, r, tail, a);
  }

  // ----- parseRtattr -----

  /** RTA_OK. */
  predicate RtaOk(m: seq<byte>, rta: nat, len: int)
    requires rta + len <= |m|
  {
    len >= RTATTR && RTATTR <= U16(m, rta) <= len
  }

  /** RTA_OK, with the remaining length given by the end of the region, which no step of
      the walk changes: the attribute at `p` lies wholly before `end`. */
  predicate Whole(m: seq<byte>, p: nat, end: int)
    requires end <= |m|
  {
    RtaOk(m, p, end - p)
  }

  function Next(m: seq<byte>, rta: nat): (p: nat)
    requires rta + RTATTR <= |m|
    ensures rta + U16(m, rta) <= p < rta + U16(m, rta) + 4
  {
    rta + AlignUp(U16(m, rta))
  }

  /** The attributes visited between `rta` and `end`. A last attribute whose padding is
      cut off moves `rta` past the end, which stops the walk. */
  function Walk(m: seq<byte>, rta: nat, end: int): (w: seq<nat>)
    requires end <= |m|
    ensures forall i :: 0 <= i < |w| ==> rta <= w[i] && Whole(m, w[i], end)
    ensures w != [] ==> 4 * |w| <= end - rta
    decreases if rta < end then end - rta else 0
  {
    if Whole(m, rta, end) then [rta] + Walk(m, Next(m, rta), end) else []
  }

  /** Where the walk stops. */
  function Stop(m: seq<byte>, rta: nat, end: nat): (p: nat)
    requires end <= |m|
    ensures p >= rta
    decreases if rta < end then end - rta else 0
  {
    if Whole(m, rta, end) then Stop(m, Next(m, rta), end) else rta
  }

  predicate Readable(m: seq<byte>, w: seq<nat>) {
    forall i :: 0 <= i < |w| ==> w[i] + RTATTR <= |m|
  }

  /** The last of the visited attributes that has type `t`. */
  function LastOfType(m: seq<byte>, w: seq<nat>, t: nat): (p: Option<nat>)
    requires Readable(m, w)
  {
    if w == [] then None
    else if U16(m, w[|w| - 1] + 2) == t then Some(w[|w| - 1])
    else LastOfType(m, w[..|w| - 1], t)
  }

  lemma {:induction false} LastOfTypeVisited(m: seq<byte>, w: seq<nat>, t: nat)
    requires Readable(m, w)
    ensures var p := LastOfType(m, w, t);
            if p.Some? then p.value in w && U16(m, p.value + 2) == t
            else forall q :: q in w ==> U16(m, q + 2) != t
  {
    if w != [] {
      LastOfTypeVisited(m, w[..|w| - 1], t);
      assert w == w[..|w| - 1] + [w[|w| - 1]];
    }
  }

  /** `tb` points, for each type up to `max`, to the last visited attribute of the type. */
  ghost predicate IsTable(tb: seq<Option<nat>>, max: nat, m: seq<byte>, w: seq<nat>) {
    |tb| > max && Readable(m, w) && forall t :: 0 <= t <= max ==> tb[t] == LastOfType(m, w, t)
  }

  /** The body of the loop: an attribute of a type beyond the table is skipped. */
  method ReadAttr(tb: array<Option<nat>>, max: nat, m: seq<byte>, rta: nat, ghost seen: seq<nat>)
    requires IsTable(tb[..], max, m, seen) && rta + RTATTR <= |m|
    modifies tb
    ensures IsTable(tb[..], max, m, seen + [rta])
    ensures tb[max + 1..] == old(tb[max + 1..])
  {
    ghost var was := tb[..];
    var typ := U16(m, rta + 2);
    if typ <= max {
      tb[typ] := Some(rta);
    }
    TableStep(was, tb[..], max, m, seen, rta);
  }

  lemma TableStep(tb: seq<Option<nat>>, tb': seq<Option<nat>>, max: nat, m: seq<byte>, w: seq<nat>, p: nat)
    requires IsTable(tb, max, m, w) && p + RTATTR <= |m|
    requires tb' == if U16(m, p + 2) <= max then tb[U16(m, p + 2) := Some(p)] else tb
    ensures IsTable(tb', max, m, w + [p])
  {
    assert (w + [p])[..|w|] == w;
  }

  /** A walk from `from` has visited `seen` and stands at `rta`. */
  ghost predicate Split(m: seq<byte>, from: nat, rta: nat, end: int, seen: seq<nat>)
    requires end <= |m|
  {
    Walk(m, from, end) == seen + Walk(m, rta, end)
  }

  lemma WalkUnfold(m: seq<byte>, from: nat, rta: nat, end: int, seen: seq<nat>)
    requires end <= |m| && Whole(m, rta, end) && Split(m, from, rta, end, seen)
    ensures Split(m, from, Next(m, rta), end, seen + [rta])
  {
    Reassociate(seen, [rta], Walk(m, Next(m, rta), end));
  }

  method ParseRtattr(tb: array<Option<nat>>, max: nat, m: seq<byte>, rta0: nat, len0: int)
    requires tb.Length >= max + 1 && rta0 + len0 <= |m|
    modifies tb
    ensures IsTable(tb[..], max, m, Walk(m, rta0, rta0 + len0))
    ensures tb[max + 1..] == old(tb[max + 1..])
  {
    forall t | 0 <= t <= max {
      tb[t] := None;
    }
    var rta, len := rta0, len0;
    ghost var seen: seq<nat> := [];
    while RtaOk(m, rta, len)
      invariant rta + len == rta0 + len0
      invariant Split(m, rta0, rta, rta0 + len0, seen)
      invariant IsTable(tb[..], max, m, seen)
      invariant tb[max + 1..] == old(tb[max + 1..])
      decreases len
    {
      ReadAttr(tb, max, m, rta, seen);
      WalkUnfold(m, rta0, rta, rta0 + len0, seen);
      var next := Next(m, rta);
      seen, rta, len := seen + [rta], next, len - (next - rta);
    }
    assert seen + [] == seen;
  }

  lemma Reassociate<T>(a: seq<T>, b: seq<T>, c: seq<T>)
    ensures a + (b + c) == a + b + c
  {
  }

  // ----- What the table means -----

  function Offsets(off: nat, attrs: seq<Attr>): (w: seq<nat>)
    ensures |w| == |attrs|
    decreases |attrs|
  {
    if attrs == [] then [] else [off] + Offsets(off + attrs[0].Size(), attrs[1..])
  }

  /** Walking past whole attributes and then on is walking the rest: the walk is
      compositional, whatever bytes follow. */
  lemma {:induction false} WalkLaid(m: seq<byte>, off: nat, mid: nat, end: nat, attrs: seq<Attr>)
    requires Laid(m, off, mid, attrs) && mid <= end <= |m|
    ensures Walk(m, off, end) == Offsets(off, attrs) + Walk(m, mid, end)
    ensures Stop(m, off, end) == Stop(m, mid, end)
    decreases |attrs|
  {
    if attrs == [] {
      assert Offsets(off, attrs) + Walk(m, off, end) == Walk(m, off, end);
    } else {
      var next := off + attrs[0].Size();
      WalkOne(m, off, end, attrs[0]);
      WalkLaid(m, next, mid, end, attrs[1..]);
      Reassociate([off], Offsets(next, attrs[1..]), Walk(m, mid, end));
    }
  }

  lemma WalkOne(m: seq<byte>, off: nat, end: nat, a: Attr)
    requires off + a.Len() <= end <= |m| && AttrAt(m, off, a)
    ensures Walk(m, off, end) == [off] + Walk(m, off + a.Size(), end)
    ensures Stop(m, off, end) == Stop(m, off + a.Size(), end)
  {
    assert Whole(m, off, end) && Next(m, off) == off + a.Size();
  }

  /** Last one wins: a later walk overrides an earlier one. */
  lemma {:induction false} LaterOverrides(m: seq<byte>, v: seq<nat>, w: seq<nat>, t: nat)
    requires Readable(m, v) && Readable(m, w)
    ensures LastOfType(m, v + w, t) ==
            if LastOfType(m, w, t).Some? then LastOfType(m, w, t) else LastOfType(m, v, t)
    decreases |w|
  {
    if w == [] {
      assert v + w == v;
    } else {
      assert (v + w)[..|v + w| - 1] == v + w[..|w| - 1];
      LaterOverrides(m, v, w[..|w| - 1], t);
    }
  }

  /** The last attribute of type `t`. */
  function LastAttr(attrs: seq<Attr>, t: nat): (a: Option<Attr>)
    ensures a.Some? ==> a.value in attrs && a.value.typ == t
    ensures a.None? ==> forall b :: b in attrs ==> b.typ != t
  {
    if attrs == [] then None
    else if LastAttr(attrs[1..], t).Some? then LastAttr(attrs[1..], t)
    else if attrs[0].typ == t then Some(attrs[0])
    else None
  }

  /** A table entry shows `a`: null for none, else a pointer to its header and payload. */
  ghost predicate Shows(m: seq<byte>, slot: Option<nat>, a: Option<Attr>) {
    match a
    case None => slot == None
    case Some(a) => slot.Some? && slot.value + a.Len() <= |m| && AttrAt(m, slot.value, a)
  }

  lemma {:induction false} SlotShowsLast(m: seq<byte>, off: nat, end: nat, attrs: seq<Attr>, t: nat)
    requires Laid(m, off, end, attrs)
    ensures Readable(m, Offsets(off, attrs))
    ensures Shows(m, LastOfType(m, Offsets(off, attrs), t), LastAttr(attrs, t))
    decreases |attrs|
  {
    if attrs != [] {
      var next := off + attrs[0].Size();
      SlotShowsLast(m, next, end, attrs[1..], t);
      HeadSlot(m, off, Offsets(next, attrs[1..]), t);
      HeadShows(m, off, attrs, LastOfType(m, Offsets(next, attrs[1..]), t), t);
    }
  }

  lemma HeadSlot(m: seq<byte>, p: nat, w: seq<nat>, t: nat)
    requires p + RTATTR <= |m| && Readable(m, w)
    ensures Readable(m, [p] + w)
    ensures LastOfType(m, [p] + w, t) ==
            if LastOfType(m, w, t).Some? then LastOfType(m, w, t) else if U16(m, p + 2) == t then Some(p) else None
  {
    LastOfOne(m, [p], p, t);
    LaterOverrides(m, [p], w, t);
  }

  lemma LastOfOne(m: seq<byte>, w: seq<nat>, p: nat, t: nat)
    requires p + RTATTR <= |m| && w == [p]
    ensures LastOfType(m, w, t) == if U16(m, p + 2) == t then Some(p) else None
  {
    assert w[..0] == [];
  }

  lemma HeadShows(m: seq<byte>, off: nat, attrs: seq<Attr>, later: Option<nat>, t: nat)
    requires attrs != [] && off + attrs[0].Len() <= |m| && AttrAt(m, off, attrs[0])
    requires Shows(m, later, LastAttr(attrs[1..], t))
    ensures Shows(m, if later.Some? then later else if U16(m, off + 2) == t then Some(off) else None,
                  LastAttr(attrs, t))
  {
  }

  /** parseRtattr over exactly the attribute region consumes it to zero, and every entry
      of the table shows the last attribute of that type. */
  lemma ParseLaid(m: seq<byte>, off: nat, end: nat, attrs: seq<Attr>, t: nat)
    requires Laid(m, off, end, attrs)
    ensures Stop(m, off, end) == end
    ensures Shows(m, LastOfType(m, Walk(m, off, end), t), LastAttr(attrs, t))
  {
    WalkLaid(m, off, end, end, attrs);
    assert Offsets(off, attrs) + [] == Offsets(off, attrs);
    SlotShowsLast(m, off, end, attrs, t);
  }

  /** The table of parseRtattr over an attribute region, slot by slot. */
  lemma TableShows(tb: seq<Option<nat>>, max: nat, m: seq<byte>, off: nat, end: nat, attrs: seq<Attr>)
    requires Laid(m, off, end, attrs) && IsTable(tb, max, m, Walk(m, off, end))
    ensures forall t :: 0 <= t <= max ==> Shows(m, tb[t], LastAttr(attrs, t))
  {
    forall t | 0 <= t <= max
      ensures Shows(m, tb[t], LastAttr(attrs, t))
    {
      ParseLaid(m, off, end, attrs, t);
    }
  }

  /** Whole attributes followed by any bytes: the later part of the region overrides the
      earlier one, slot by slot. */
  lemma ParseComposes(m: seq<byte>, off: nat, mid: nat, end: nat, attrs: seq<Attr>, t: nat)
    requires Laid(m, off, mid, attrs) && mid <= end <= |m|
    ensures LastOfType(m, Walk(m, off, end), t) ==
            if LastOfType(m, Walk(m, mid, end), t).Some? then LastOfType(m, Walk(m, mid, end), t)
            else LastOfType(m, Walk(m, off, mid), t)
  {
    WalkLaid(m, off, mid, end, attrs);
    WalkLaid(m, off, mid, mid, attrs);
    assert Offsets(off, attrs) + [] == Offsets(off, attrs);
    LaterOverrides(m, Walk(m, off, mid), Walk(m, mid, end), t);
  }

  /** The attributes shown at the offsets `w`. */
  function Decode(m: seq<byte>, w: seq<nat>): (attrs: seq<Attr>)
    requires forall i :: 0 <= i < |w| ==> Whole(m, w[i], |m|)
  {
    if w == [] then [] else [DecodeOne(m, w[0])] + Decode(m, w[1..])
  }

  function DecodeOne(m: seq<byte>, p: nat): (a: Attr)
    requires Whole(m, p, |m|)
    ensures p + a.Len() <= |m| && AttrAt(m, p, a)
    ensures p + a.Size() == Next(m, p)
  {
    Attr(U16(m, p + 2), m[p + RTATTR..p + U16(m, p)])
  }

  /** For arbitrary bytes: the walk uses a region up exactly when the region is a list of
      whole attributes, namely the ones that the walk visits. */
  lemma StopsAtEndIffLaid(m: seq<byte>, off: nat, end: nat)
    requires off <= end <= |m|
    ensures Stop(m, off, end) == end <==> Laid(m, off, end, Decode(m, Walk(m, off, end)))
  {
    if Stop(m, off, end) == end {
      StopsAtEndLaid(m, off, end);
    } else if Laid(m, off, end, Decode(m, Walk(m, off, end))) {
      WalkLaid(m, off, end, end, Decode(m, Walk(m, off, end)));
      assert false;
    }
  }

  lemma {:induction false} StopsAtEndLaid(m: seq<byte>, off: nat, end: nat)
    requires off <= end <= |m| && Stop(m, off, end) == end
    ensures Laid(m, off, end, Decode(m, Walk(m, off, end)))
    decreases end - off
  {
    if Whole(m, off, end) {
      var next := Next(m, off);
      StopsAtEndLaid(m, next, end);
      DecodeHead(m, off, Walk(m, next, end));
      LaidCons(m, off, next, end, DecodeOne(m, off), Decode(m, Walk(m, next, end)));
    }
  }

  lemma LaidCons(m: seq<byte>, off: nat, next: nat, end: nat, a: Attr, rest: seq<Attr>)
    requires off + a.Len() <= |m| && AttrAt(m, off, a) && next == off + a.Size()
    requires Laid(m, next, end, rest)
    ensures Laid(m, off, end, [a] + rest)
  {
    assert ([a] + rest)[0] == a && ([a] + rest)[1..] == rest;
    assert next <= end;
  }

  lemma DecodeHead(m: seq<byte>, p: nat, w: seq<nat>)
    requires Whole(m, p, |m|) && forall i :: 0 <= i < |w| ==> Whole(m, w[i], |m|)
    ensures Decode(m, [p] + w) == [DecodeOne(m, p)] + Decode(m, w)
  {
    assert ([p] + w)[0] == p && ([p] + w)[1..] == w;
  }

  /** Build and parse: after any sequence of rtattr_add calls on any buffer, parsing the
      attribute region consumes it exactly and meets the accepted attributes in order, if
      and only if each of them fits the 16-bit fields of its header. */
  lemma RoundTrip(m: seq<byte>, maxlen: nat, base: nat, calls: seq<Attr>)
    requires NLMSGHDR <= maxlen <= |m| < INT_RANGE && NLMSGHDR <= base == Tail(m) <= |m|
    ensures var (r, added) := AddEach(m, maxlen, calls);
            && base <= Tail(r) <= |r|
            && (Stop(r, base, Tail(r)) == Tail(r) && Decode(r, Walk(r, base, Tail(r))) == added
                <==> AllRepresentable(added))
  {
    var (r, added) := AddEach(m, maxlen, calls);
    AddEachTail(m, maxlen, calls);
    assert Laid(m, base, base, []);
    AddEachLaysOut(m, maxlen, base, [], calls);
    assert [] + added == added;
    var read := Decode(r, Walk(r, base, Tail(r)));
    StopsAtEndIffLaid(r, base, Tail(r));
    if AllRepresentable(added) {
      ParseLaid(r, base, Tail(r), added, 0);
      LaidUnique(r, base, Tail(r), read, added);
    }
  }

  /** The table that parseRtattr then fills shows, for each type, the last attribute
      accepted with that type. */
  lemma RoundTripTable(m: seq<byte>, maxlen: nat, base: nat, calls: seq<Attr>, t: nat)
    requires NLMSGHDR <= maxlen <= |m| < INT_RANGE && NLMSGHDR <= base == Tail(m) <= |m|
    requires AllRepresentable(AddEach(m, maxlen, calls).1)
    ensures var (r, added) := AddEach(m, maxlen, calls);
            && base <= Tail(r) <= |r|
            && Shows(r, LastOfType(r, Walk(r, base, Tail(r)), t), LastAttr(added, t))
  {
    var (r, added) := AddEach(m, maxlen, calls);
    assert Laid(m, base, base, []);
    AddEachLaysOut(m, maxlen, base, [], calls);
    assert [] + added == added;
    ParseLaid(r, base, Tail(r), added, t);
  }

  /** An attribute with 65532 bytes of payload: its length 65536 is stored as 0, and no
      reader finds it. */
  lemma LongPayloadLost(m: seq<byte>, r: seq<byte>, a: Attr)
    requires NLMSGHDR <= |m| < INT_RANGE && MsgLen(m) == NLMSGHDR
    requires |a.payload| == U16_RANGE - RTATTR && HasRoom(m, |m|, a) && r == WithAttr(m, a)
    ensures Tail(r) == NLMSGHDR + U16_RANGE && Walk(r, NLMSGHDR, Tail(r)) == []
    ensures !Laid(r, NLMSGHDR, Tail(r), [a])
  {
    AlignFormula(NLMSGHDR);
    AlignFormula(U16_RANGE);
    LengthLost(m, r, NLMSGHDR, a);
  }

  lemma LengthLost(m: seq<byte>, r: seq<byte>, tail: nat, a: Attr)
    requires |m| >= NLMSGHDR && HasRoom(m, |m|, a) && |m| < INT_RANGE && r == WithAttr(m, a)
    requires tail == Tail(m) == NLMSGHDR && a.Len() == a.Size() == U16_RANGE
    ensures Tail(r) == tail + U16_RANGE && Walk(r, tail, Tail(r)) == []
    ensures !Laid(r, tail, Tail(r), [a])
  {
    AddLength(m, r, tail, a);
    AddFrame(m, a);
    RecordStored(r, tail, a);
    NoLengthNoWalk(r, tail, Tail(r));
    if Laid(r, tail, Tail(r), [a]) {
      LaidRepresentable(r, tail, Tail(r), [a]);
    }
  }

  lemma NoLengthNoWalk(m: seq<byte>, at: nat, end: nat)
    requires at + 2 <= end <= |m| && U16(m, at) == 0
    ensures Walk(m, at, end) == []
  {
  }

  /** netmon passes parseRtattr the length of the whole message, so the walk runs on past
      the attribute region `off..end` to `over`. The table is still that of the region
      if and only if the attributes picked up on the way have types beyond the table. */
  lemma OverrunIff(m: seq<byte>, off: nat, end: nat, over: nat, attrs: seq<Attr>, max: nat)
    requires Laid(m, off, end, attrs) && end <= over <= |m|
    ensures Walk(m, off, over) == Walk(m, off, end) + Walk(m, end, over)
    ensures (forall t :: 0 <= t <= max ==> SlotKept(m, Walk(m, off, end), Walk(m, end, over), t))
       <==> (forall p :: p in Walk(m, end, over) ==> U16(m, p + 2) > max)
  {
    WalkLaid(m, off, end, over, attrs);
    WalkLaid(m, off, end, end, attrs);
    assert Offsets(off, attrs) + [] == Offsets(off, attrs);
    TableKeptIff(m, Walk(m, off, end), Walk(m, end, over), max);
  }

  lemma TableKeptIff(m: seq<byte>, v: seq<nat>, w: seq<nat>, max: nat)
    requires Readable(m, v) && Readable(m, w) && forall p :: p in w ==> p !in v
    ensures (forall t :: 0 <= t <= max ==> SlotKept(m, v, w, t)) <==> (forall p :: p in w ==> U16(m, p + 2) > max)
  {
    forall t | 0 <= t <= max
      ensures SlotKept(m, v, w, t) <==> !HasType(m, w, t)
    {
      SlotKeptIff(m, v, w, t);
    }
    forall p | p in w && U16(m, p + 2) <= max
      ensures !SlotKept(m, v, w, U16(m, p + 2))
    {
      assert HasType(m, w, U16(m, p + 2));
    }
  }

  /** Visiting `w` after `v` leaves the slot of type `t` as it was. */
  ghost predicate SlotKept(m: seq<byte>, v: seq<nat>, w: seq<nat>, t: nat)
    requires Readable(m, v) && Readable(m, w)
  {
    LastOfType(m, v + w, t) == LastOfType(m, v, t)
  }

  ghost predicate HasType(m: seq<byte>, w: seq<nat>, t: nat)
    requires Readable(m, w)
  {
    exists p :: p in w && U16(m, p + 2) == t
  }

  lemma SlotKeptIff(m: seq<byte>, v: seq<nat>, w: seq<nat>, t: nat)
    requires Readable(m, v) && Readable(m, w) && forall p :: p in w ==> p !in v
    ensures SlotKept(m, v, w, t) <==> !HasType(m, w, t)
  {
    LaterOverrides(m, v, w, t);
    LastOfTypeVisited(m, v, t);
    LastOfTypeVisited(m, w, t);
  }
}
