/** do_route (netlink/set_route.c): composes a route request of a header and up to three
    attributes inside one uninitialised struct. */
module Route {
  import opened Bytes
  import opened RtAttr

  const RTM_DELROUTE := 25
  const RTA_DST := 1
  const RTA_OIF := 4
  const RTA_GATEWAY := 5
  const AF_INET6 := 10
  const RT_TABLE_MAIN := 254
  const RT_SCOPE_UNIVERSE := 0
  const RT_SCOPE_LINK := 253
  const RT_SCOPE_NOWHERE := 255
  const RTPROT_BOOT := 3
  const RTN_UNICAST := 1

  const HEADERS := 28       // nlmsghdr and rtmsg
  const REQUEST := 4124     // sizeof(nl_request)

  /** An address as the command line parser leaves it: `bitlen` is 0 when none was given. */
  datatype InetAddr = InetAddr(family: byte, bitlen: byte, data: seq<byte>) {

    predicate Valid() { bitlen in {0, 32, 128} && |data| == 16 }

    function Octets(): (bs: seq<byte>)
      requires Valid()
    {
      data[..bitlen / 8]
    }
  }

  // Offsets in struct rtmsg, which follows the 16 bytes of struct nlmsghdr.
  const FAMILY := 16
  const DST_LEN := 17
  const TABLE := 20
  const PROTOCOL := 21
  const SCOPE := 22
  const TYPE := 23

  /** NLM_F_REQUEST | flags, where NLM_F_REQUEST is 1. */
  function WithRequestFlag(flags: int): int {
    if flags % 2 == 1 then flags else flags + 1
  }

  /** The attributes that the request must carry, in order. */
  function RouteAttrs(dst: InetAddr, gw: InetAddr, defGw: bool, ifIdx: int): (attrs: seq<Attr>)
    requires dst.Valid() && gw.Valid()
  {
    (if gw.bitlen != 0 then [Attr(RTA_GATEWAY, gw.Octets())] else []) +
    (if defGw then [] else [Attr(RTA_DST, dst.Octets()), Attr(RTA_OIF, Le32(ifIdx))])
  }

  /** What the kernel reads in the fixed part of the request, by offsets and values: after
      nlmsg_len the command at 4 and the flags with bit 0 set at 6, then rtmsg with the
      family at 16, rtm_dst_len at 17, table 254, protocol 3, scope 0 or 253, type 1. */
  ghost predicate HeaderFor(m: seq<byte>, was: seq<byte>, cmd: int, flags: int, dst: InetAddr, gw: InetAddr)
    requires |m| == |was| == REQUEST
  {
    && U16(m, 4) == cmd % 0x1_0000
    && U16(m, 6) == (flags - flags % 2 + 1) % 0x1_0000
    && m[16] == (if gw.bitlen != 0 then gw.family else dst.family)
    && m[17] == dst.bitlen
    && m[20] == 254
    && m[21] == (if cmd == 25 then was[21] else 3)
    && m[22] == (if gw.bitlen != 0 || dst.family == 10 then 0 else 253)
    && m[23] == (if cmd == 25 then was[23] else 1)
    && (forall i :: 8 <= i < 16 || 18 <= i < 20 || 24 <= i < 28 ==> m[i] == was[i])
  }

  const NO_GATEWAY := InetAddr(0, 0, [])

  method InitRequest(rq: array<byte>, cmd: int, flags: int, dst: InetAddr)
    requires rq.Length == REQUEST
    modifies rq
    ensures MsgLen(rq[..]) == HEADERS
    ensures HeaderFor(rq[..], old(rq[..]), cmd, flags, dst, NO_GATEWAY)
    ensures rq[HEADERS..] == old(rq[HEADERS..])
  {
    ghost var was := rq[..];
    InitMsgHdr(rq, cmd, flags);
    ghost var words := rq[..];
    assert rq[8..] == words[8..] && was[8..] == old(rq[8..]);
    InitRtmsg(rq, cmd, dst);
    InitializedRequest(was, words, rq[..], cmd, flags, dst);
    assert rq[HEADERS..] == rq[..][HEADERS..] && was[HEADERS..] == old(rq[HEADERS..]);
  }

  /** The two halves of the initialisation: words of nlmsghdr first, then rtmsg. */
  lemma InitializedRequest(was: seq<byte>, words: seq<byte>, m: seq<byte>, cmd: int, flags: int, dst: InetAddr)
    requires |was| == |words| == |m| == REQUEST && words[8..] == was[8..]
    requires MsgLen(words) == HEADERS
    requires U16(words, 4) == cmd % U16_RANGE && U16(words, 6) == WithRequestFlag(flags) % U16_RANGE
    requires m[FAMILY] == dst.family && m[DST_LEN] == dst.bitlen && m[TABLE] == RT_TABLE_MAIN
    requires m[SCOPE] == if dst.family == AF_INET6 then RT_SCOPE_UNIVERSE else RT_SCOPE_LINK
    requires m[PROTOCOL] == if cmd == RTM_DELROUTE then words[PROTOCOL] else RTPROT_BOOT
    requires m[TYPE] == if cmd == RTM_DELROUTE then words[TYPE] else RTN_UNICAST
    requires forall i :: 0 <= i < FAMILY || 18 <= i < TABLE || 24 <= i < REQUEST ==> m[i] == words[i]
    ensures MsgLen(m) == HEADERS
    ensures HeaderFor(m, was, cmd, flags, dst, NO_GATEWAY)
    ensures m[HEADERS..] == was[HEADERS..]
  {
    assert m[0..8] == words[0..8];
    SameSlice(m, words, 0, 8, 0, 4);
    SameSlice(m, words, 0, 8, 4, 6);
    SameSlice(m, words, 0, 8, 6, 8);
    forall i | 8 <= i < REQUEST
      ensures words[i] == was[i]
    {
      assert words[8..][i - 8] == was[8..][i - 8];
    }
  }

  method InitRtmsg(rq: array<byte>, cmd: int, dst: InetAddr)
    requires rq.Length == REQUEST
    modifies rq
    ensures rq[FAMILY] == dst.family && rq[DST_LEN] == dst.bitlen && rq[TABLE] == RT_TABLE_MAIN
    ensures rq[SCOPE] == if dst.family == AF_INET6 then RT_SCOPE_UNIVERSE else RT_SCOPE_LINK
    ensures rq[PROTOCOL] == if cmd == RTM_DELROUTE then old(rq[PROTOCOL]) else RTPROT_BOOT
    ensures rq[TYPE] == if cmd == RTM_DELROUTE then old(rq[TYPE]) else RTN_UNICAST
    ensures forall i :: 0 <= i < FAMILY || 18 <= i < TABLE || 24 <= i < REQUEST ==> rq[i] == old(rq[i])
  {
    rq[FAMILY] := dst.family;
    rq[TABLE] := RT_TABLE_MAIN;
    rq[SCOPE] := RT_SCOPE_NOWHERE;
    if cmd != RTM_DELROUTE {
      rq[PROTOCOL] := RTPROT_BOOT;
      rq[TYPE] := RTN_UNICAST;
    }
    rq[FAMILY] := dst.family;
    rq[DST_LEN] := dst.bitlen;
    if rq[FAMILY] == AF_INET6 {
      rq[SCOPE] := RT_SCOPE_UNIVERSE;
    } else {
      rq[SCOPE] := RT_SCOPE_LINK;
    }
  }

  method InitMsgHdr(rq: array<byte>, cmd: int, flags: int)
    requires rq.Length == REQUEST
    modifies rq
    ensures MsgLen(rq[..]) == HEADERS
    ensures U16(rq[..], 4) == cmd % U16_RANGE
    ensures U16(rq[..], 6) == WithRequestFlag(flags) % U16_RANGE
    ensures rq[8..] == old(rq[8..])
  {
    ghost var m, len, typ, flag := rq[..], Le32(HEADERS), Le16(cmd), Le16(WithRequestFlag(flags));
    Memcpy(rq, 0, Le32(HEADERS));
    Memcpy(rq, 6, Le16(WithRequestFlag(flags)));
    OverwriteAdjacent(Overwrite(m, 0, len), 4, typ, flag);
    Memcpy(rq, 4, Le16(cmd));
    OverwriteAdjacent(m, 0, len, typ + flag);
    assert len + (typ + flag) == len + typ + flag;
    OverwriteAt(m, 0, len + typ + flag);
    RecordParts(rq[..], 0, len, typ, flag);
    LoadStored32(rq[..], 0, HEADERS);
    LoadStored16(rq[..], 4, cmd);
    LoadStored16(rq[..], 6, WithRequestFlag(flags));
  }

  /** The request holds `attrs` after its headers and nothing else of the buffer's
      attribute space was touched. */
  ghost predicate Carries(m: seq<byte>, attrs: seq<Attr>) {
    && |m| == REQUEST
    && Tail(m) == MsgLen(m)
    && MsgLen(m) == HEADERS + TotalSize(attrs)
    && Laid(m, HEADERS, MsgLen(m), attrs)
  }

  method AppendAttr(rq: array<byte>, ghost attrs: seq<Attr>, typ: nat, data: seq<byte>)
    requires rq.Length == REQUEST && Carries(rq[..], attrs)
    requires typ < U16_RANGE && |data| <= 16 && |attrs| <= 2 && TotalSize(attrs) <= 40
    modifies rq
    ensures Carries(rq[..], attrs + [Attr(typ, data)])
    ensures rq[4..HEADERS] == old(rq[4..HEADERS])
    ensures TotalSize(attrs + [Attr(typ, data)]) == TotalSize(attrs) + Attr(typ, data).Size()
  {
    ghost var m, a := rq[..], Attr(typ, data);
    var rc := RtattrAdd(rq, REQUEST, typ, data);
    Appended(m, rq[..], attrs, a);
    assert rq[..] == WithAttr(m, a);
  }

  /** The bound check of rtattr_add passes, and its effect on a request. */
  lemma Appended(m: seq<byte>, r: seq<byte>, attrs: seq<Attr>, a: Attr)
    requires Carries(m, attrs) && 0 <= a.typ < U16_RANGE && |a.payload| <= 16 && TotalSize(attrs) <= 40
    ensures HasRoom(m, REQUEST, a)
    ensures r == WithAttr(m, a) ==> Carries(r, attrs + [a]) && r[4..HEADERS] == m[4..HEADERS]
    ensures TotalSize(attrs + [a]) == TotalSize(attrs) + a.Size()
  {
    var tail := Tail(m);
    TotalSizeSnoc(attrs, a);
    if r == WithAttr(m, a) {
      AddLength(m, r, tail, a);
      AddStep(m, r, HEADERS, tail, Tail(r), attrs, a);
      AddFrame(m, a);
      SameSlice(r, m, 4, tail, 4, HEADERS);
    }
  }

  lemma TotalSizeSnoc(attrs: seq<Attr>, a: Attr)
    ensures TotalSize(attrs + [a]) == TotalSize(attrs) + a.Size()
  {
    TotalSizeConcat(attrs, [a]);
    TotalSizeOne(a);
  }

  method DoRoute(rq: array<byte>, cmd: int, flags: int, dst: InetAddr, gw: InetAddr, defGw: bool, ifIdx: int)
    requires rq.Length == REQUEST && dst.Valid() && gw.Valid()
    modifies rq
    ensures Carries(rq[..], RouteAttrs(dst, gw, defGw, ifIdx))
    ensures HeaderFor(rq[..], old(rq[..]), cmd, flags, dst, gw)
  {
    ghost var was := rq[..];
    InitRequest(rq, cmd, flags, dst);
    ghost var attrs: seq<Attr> := [];
    if gw.bitlen != 0 {
      ghost var header := rq[..];
      AppendAttr(rq, [], RTA_GATEWAY, gw.Octets());
      SetGateway(rq, gw, header, was, cmd, flags, dst);
      attrs := [Attr(RTA_GATEWAY, gw.Octets())];
      SizeOfAddr(attrs[0]);
      TotalSizeOne(attrs[0]);
    }
    if !defGw {
      ghost var header := rq[..];
      AddDestination(rq, attrs, dst, ifIdx);
      HeaderKept(header, rq[..], was, cmd, flags, dst, gw);
    } else {
      assert attrs + [] == attrs;
    }
  }

  method AddDestination(rq: array<byte>, ghost attrs: seq<Attr>, dst: InetAddr, ifIdx: int)
    requires rq.Length == REQUEST && dst.Valid()
    requires Carries(rq[..], attrs) && |attrs| <= 1 && TotalSize(attrs) <= 20
    modifies rq
    ensures Carries(rq[..], attrs + [Attr(RTA_DST, dst.Octets()), Attr(RTA_OIF, Le32(ifIdx))])
    ensures rq[4..HEADERS] == old(rq[4..HEADERS])
  {
    ghost var d, i := Attr(RTA_DST, dst.Octets()), Attr(RTA_OIF, Le32(ifIdx));
    SizeOfAddr(d);
    AppendAttr(rq, attrs, RTA_DST, dst.Octets());
    AppendAttr(rq, attrs + [d], RTA_OIF, Le32(ifIdx));
    assert attrs + [d] + [i] == attrs + [d, i];
  }

  /** The two header fields that depend on the gateway, stored after its attribute. */
  method SetGateway(rq: array<byte>, gw: InetAddr, ghost header: seq<byte>, ghost was: seq<byte>,
                    ghost cmd: int, ghost flags: int, ghost dst: InetAddr)
    requires rq.Length == |header| == |was| == REQUEST && gw.Valid() && gw.bitlen != 0
    requires Carries(rq[..], [] + [Attr(RTA_GATEWAY, gw.Octets())])
    requires HeaderFor(header, was, cmd, flags, dst, NO_GATEWAY) && rq[4..HEADERS] == header[4..HEADERS]
    modifies rq
    ensures Carries(rq[..], [Attr(RTA_GATEWAY, gw.Octets())])
    ensures HeaderFor(rq[..], was, cmd, flags, dst, gw)
  {
    ghost var m := rq[..];
    HeaderKept(header, m, was, cmd, flags, dst, NO_GATEWAY);
    rq[SCOPE] := RT_SCOPE_UNIVERSE;
    rq[FAMILY] := gw.family;
    assert [] + [Attr(RTA_GATEWAY, gw.Octets())] == [Attr(RTA_GATEWAY, gw.Octets())];
    StillCarries(m, rq[..], [Attr(RTA_GATEWAY, gw.Octets())]);
    assert rq[..][4..8] == m[4..8];
    SameSlice(rq[..], m, 4, 8, 4, 6);
    SameSlice(rq[..], m, 4, 8, 6, 8);
  }

  lemma HeaderKept(m: seq<byte>, m': seq<byte>, was: seq<byte>, cmd: int, flags: int, dst: InetAddr, gw: InetAddr)
    requires |m| == |m'| == |was| == REQUEST && HeaderFor(m, was, cmd, flags, dst, gw)
    requires m[4..HEADERS] == m'[4..HEADERS]
    ensures HeaderFor(m', was, cmd, flags, dst, gw)
  {
    SliceIndex(m, m', 4, HEADERS);
    SameSlice(m, m', 4, HEADERS, 4, 6);
    SameSlice(m, m', 4, HEADERS, 6, 8);
  }

  lemma StillCarries(m: seq<byte>, m': seq<byte>, attrs: seq<Attr>)
    requires Carries(m, attrs) && |m'| == REQUEST && m[..4] == m'[..4] && m[HEADERS..] == m'[HEADERS..]
    ensures Carries(m', attrs)
  {
    var end := MsgLen(m);
    SameSlice(m, m', 0, 4, 0, 4);
    SameSlice(m, m', HEADERS, REQUEST, HEADERS, end);
    LaidFrame(m, m', HEADERS, end, attrs);
  }

  // ----- What a reader of the request finds -----

  /** A reader that walks the attributes of the request consumes them exactly, and finds
      the gateway (type 5) if and only if one was given, and the destination (1) and the
      interface (4) if and only if the route is not a default one. */
  lemma RouteDecodes(m: seq<byte>, dst: InetAddr, gw: InetAddr, defGw: bool, ifIdx: int)
    requires dst.Valid() && gw.Valid() && Carries(m, RouteAttrs(dst, gw, defGw, ifIdx))
    ensures var end, w := MsgLen(m), Walk(m, 28, MsgLen(m));
            && end <= REQUEST && Stop(m, 28, end) == end
            && Shows(m, LastOfType(m, w, 5),
                     if gw.bitlen != 0 then Some(Attr(5, gw.Octets())) else None)
            && Shows(m, LastOfType(m, w, 1), if defGw then None else Some(Attr(1, dst.Octets())))
            && Shows(m, LastOfType(m, w, 4), if defGw then None else Some(Attr(4, Le32(ifIdx))))
            && (forall t :: 0 <= t && t !in {1, 4, 5} ==> LastOfType(m, w, t) == None)
  {
    var attrs, end := RouteAttrs(dst, gw, defGw, ifIdx), MsgLen(m);
    ParseLaid(m, HEADERS, end, attrs, RTA_GATEWAY);
    ParseLaid(m, HEADERS, end, attrs, RTA_DST);
    ParseLaid(m, HEADERS, end, attrs, RTA_OIF);
    RouteLast(dst, gw, defGw, ifIdx, RTA_GATEWAY);
    RouteLast(dst, gw, defGw, ifIdx, RTA_DST);
    RouteLast(dst, gw, defGw, ifIdx, RTA_OIF);
    forall t | 0 <= t && t !in {RTA_GATEWAY, RTA_DST, RTA_OIF}
      ensures LastOfType(m, Walk(m, HEADERS, end), t) == None
    {
      ParseLaid(m, HEADERS, end, attrs, t);
      RouteLast(dst, gw, defGw, ifIdx, t);
    }
  }

  /** The order in which the attributes follow the headers. */
  lemma RouteOrder(m: seq<byte>, dst: InetAddr, gw: InetAddr, defGw: bool, ifIdx: int)
    requires dst.Valid() && gw.Valid() && Carries(m, RouteAttrs(dst, gw, defGw, ifIdx))
    ensures gw.bitlen != 0 ==> U16(m, 30) == 5
    ensures gw.bitlen == 0 && !defGw ==> U16(m, 30) == 1
    ensures !defGw ==> LastAttrOf(RouteAttrs(dst, gw, defGw, ifIdx)) == 4
  {
  }

  /** The type of the attribute at the end. */
  function LastAttrOf(attrs: seq<Attr>): int {
    if attrs == [] then -1 else attrs[|attrs| - 1].typ
  }

  /** The bytes it finds there: of an address, the first `bitlen / 8` as the address holds
      them, and the index of the interface. */
  lemma GatewayBytes(m: seq<byte>, dst: InetAddr, gw: InetAddr, defGw: bool, ifIdx: int, p: Option<nat>)
    requires dst.Valid() && gw.Valid() && Carries(m, RouteAttrs(dst, gw, defGw, ifIdx)) && gw.bitlen != 0
    requires p == RouteSlot(m, 5)
    ensures Holds(m, p, gw.bitlen / 8, gw.data)
  {
    RouteLast(dst, gw, defGw, ifIdx, 5);
    SlotOfRoute(m, RouteAttrs(dst, gw, defGw, ifIdx), 5, Attr(5, gw.Octets()), p);
    ShownHolds(m, p, 5, gw);
  }

  lemma DestinationBytes(m: seq<byte>, dst: InetAddr, gw: InetAddr, ifIdx: int, p: Option<nat>)
    requires dst.Valid() && gw.Valid() && Carries(m, RouteAttrs(dst, gw, false, ifIdx))
    requires p == RouteSlot(m, 1)
    ensures Holds(m, p, dst.bitlen / 8, dst.data)
  {
    RouteLast(dst, gw, false, ifIdx, 1);
    SlotOfRoute(m, RouteAttrs(dst, gw, false, ifIdx), 1, Attr(1, dst.Octets()), p);
    ShownHolds(m, p, 1, dst);
  }

  lemma InterfaceBytes(m: seq<byte>, dst: InetAddr, gw: InetAddr, ifIdx: int, p: Option<nat>)
    requires dst.Valid() && gw.Valid() && Carries(m, RouteAttrs(dst, gw, false, ifIdx))
    requires p == RouteSlot(m, 4)
    ensures p.Some? && p.value + 8 <= |m|
    ensures U16(m, p.value) == 8 && U32(m, p.value + 4) == ifIdx % 0x1_0000_0000
  {
    RouteLast(dst, gw, false, ifIdx, 4);
    SlotOfRoute(m, RouteAttrs(dst, gw, false, ifIdx), 4, Attr(4, Le32(ifIdx)), p);
    ShownIndex(m, p, ifIdx);
  }

  /** Where a reader of the request finds the attribute of type `t`. */
  function RouteSlot(m: seq<byte>, t: nat): (p: Option<nat>) {
    if |m| == REQUEST && MsgLen(m) <= REQUEST then LastOfType(m, Walk(m, 28, MsgLen(m)), t) else None
  }

  lemma SlotOfRoute(m: seq<byte>, attrs: seq<Attr>, t: nat, a: Attr, p: Option<nat>)
    requires Carries(m, attrs) && LastAttr(attrs, t) == Some(a) && p == RouteSlot(m, t)
    ensures Shows(m, p, Some(a))
  {
    ParseLaid(m, HEADERS, MsgLen(m), attrs, t);
  }

  /** At `p` there is an attribute whose payload is the first `n` bytes of `data`. */
  ghost predicate Holds(m: seq<byte>, p: Option<nat>, n: nat, data: seq<byte>) {
    && p.Some? && n <= |data| && p.value + 4 + n <= |m|
    && U16(m, p.value) == 4 + n
    && forall i :: 0 <= i < n ==> m[p.value + 4 + i] == data[i]
  }

  lemma ShownHolds(m: seq<byte>, p: Option<nat>, t: int, a: InetAddr)
    requires a.Valid() && Shows(m, p, Some(Attr(t, a.Octets())))
    ensures Holds(m, p, a.bitlen / 8, a.data)
  {
    var at, n := p.value, a.bitlen / 8;
    forall i | 0 <= i < n
      ensures m[at + 4 + i] == a.data[i]
    {
      assert m[at + 4..at + 4 + n][i] == a.Octets()[i];
    }
  }

  lemma ShownIndex(m: seq<byte>, p: Option<nat>, ifIdx: int)
    requires Shows(m, p, Some(Attr(4, Le32(ifIdx))))
    ensures p.value + 8 <= |m| && U16(m, p.value) == 8 && U32(m, p.value + 4) == ifIdx % U32_RANGE
  {
    LoadStored32(m, p.value + 4, ifIdx);
  }

  lemma RouteLast(dst: InetAddr, gw: InetAddr, defGw: bool, ifIdx: int, t: nat)
    requires dst.Valid() && gw.Valid()
    ensures LastAttr(RouteAttrs(dst, gw, defGw, ifIdx), t) ==
            if t == RTA_GATEWAY && gw.bitlen != 0 then Some(Attr(RTA_GATEWAY, gw.Octets()))
            else if t == RTA_DST && !defGw then Some(Attr(RTA_DST, dst.Octets()))
            else if t == RTA_OIF && !defGw then Some(Attr(RTA_OIF, Le32(ifIdx)))
            else None
  {
    var g, d, i := Attr(RTA_GATEWAY, gw.Octets()), Attr(RTA_DST, dst.Octets()), Attr(RTA_OIF, Le32(ifIdx));
    LastAttrOne(g, t);
    LastAttrOne(d, t);
    LastAttrOne(i, t);
    LastAttrConcat([d], [i], t);
    assert [d] + [i] == [d, i];
    LastAttrConcat(if gw.bitlen != 0 then [g] else [], if defGw then [] else [d, i], t);
  }

  lemma LastAttrOne(a: Attr, t: nat)
    ensures LastAttr([a], t) == if a.typ == t then Some(a) else None
  {
    assert LastAttr([a][1..], t) == None;
  }

  lemma {:induction false} LastAttrConcat(a: seq<Attr>, b: seq<Attr>, t: nat)
    ensures LastAttr(a + b, t) == if LastAttr(b, t).Some? then LastAttr(b, t) else LastAttr(a, t)
  {
    if a == [] {
      assert a + b == b;
    } else {
      assert (a + b)[1..] == a[1..] + b;
      LastAttrConcat(a[1..], b, t);
    }
  }

  /** The length of the message: the headers, 4 bytes per address attribute plus its
      octets, and 8 for the interface. */
  lemma RouteLength(m: seq<byte>, dst: InetAddr, gw: InetAddr, defGw: bool, ifIdx: int)
    requires dst.Valid() && gw.Valid() && Carries(m, RouteAttrs(dst, gw, defGw, ifIdx))
    ensures MsgLen(m) == HEADERS + (if gw.bitlen != 0 then 4 + gw.bitlen / 8 else 0)
                                 + (if defGw then 0 else 4 + dst.bitlen / 8 + 8)
    ensures MsgLen(m) % 4 == 0
  {
    RouteTotal(dst, gw, defGw, ifIdx);
    AlignFormula(MsgLen(m));
  }

  lemma RouteTotal(dst: InetAddr, gw: InetAddr, defGw: bool, ifIdx: int)
    requires dst.Valid() && gw.Valid()
    ensures TotalSize(RouteAttrs(dst, gw, defGw, ifIdx)) ==
            (if gw.bitlen != 0 then 4 + gw.bitlen / 8 else 0) + (if defGw then 0 else 4 + dst.bitlen / 8 + 8)
  {
    var g, d, i := Attr(RTA_GATEWAY, gw.Octets()), Attr(RTA_DST, dst.Octets()), Attr(RTA_OIF, Le32(ifIdx));
    SizeOfAddr(g);
    SizeOfAddr(d);
    SizeOfAddr(i);
    TotalSizeOne(g);
    TotalSizeOne(d);
    TotalSizeSnoc([d], i);
    assert [d] + [i] == [d, i];
    TotalSizeConcat(if gw.bitlen != 0 then [g] else [], if defGw then [] else [d, i]);
  }

  lemma TotalSizeOne(a: Attr)
    ensures TotalSize([a]) == a.Size()
  {
    assert TotalSize([a][1..]) == 0;
  }

  lemma {:induction false} TotalSizeConcat(a: seq<Attr>, b: seq<Attr>)
    ensures TotalSize(a + b) == TotalSize(a) + TotalSize(b)
  {
    if a == [] {
      assert a + b == b;
    } else {
      assert (a + b)[1..] == a[1..] + b;
      TotalSizeConcat(a[1..], b);
    }
  }

  lemma SizeOfAddr(a: Attr)
    requires |a.payload| in {0, 4, 16}
    ensures a.Size() == 4 + |a.payload|
  {
    AlignFormula(a.Len());
  }

  // ----- The type of bitlen -----

  /** Reading back a value stored in a C `char`, which may be signed. */
  function AsChar(v: byte, signed: bool): (c: int)
    ensures c == v || (signed && c == v - 0x100)
  {
    if signed && v >= 0x80 then v - 0x100 else v
  }

  /** The source declares bitlen as `char`: the byte count passed to rtattr_add is that of
      the address exactly when `char` is unsigned or the address is not an IPv6 one. */
  lemma BitlenExact(a: InetAddr, signed: bool)
    requires a.Valid()
    ensures AsChar(a.bitlen, signed) / 8 == |a.Octets()| <==> !signed || a.bitlen != 128
  {
  }
}
