/** The attribute tables of the monitor (netlink/netmon.c). It gives parseRtattr nlmsg_len as
    the length of the attributes, so each walk runs on behind the message. */
module NetmonTables {
  import opened Bytes
  import opened RtAttr
  import opened NlStream
  import opened Netmon

  /** The monitor parses the attributes of a message with nlmsg_len as their length, so the
      walk runs on into the message that follows. If the attributes end where the next
      message starts, the table is right exactly when that message is longer than the
      overrun: otherwise its header is taken for an attribute of type 0. */
  lemma OverrunIntoNext(m: seq<byte>, off: nat, end: nat, over: nat, attrs: seq<Attr>, next: Msg, max: nat)
    requires Laid(m, off, end, attrs) && end + next.Len() <= |m| && MsgAt(m, end, next)
    requires next.Len() < U16_RANGE && end <= over <= |m|
    ensures (forall t :: 0 <= t <= max ==> SlotKept(m, Walk(m, off, end), Walk(m, end, over), t))
       <==> next.Len() > over - end
  {
    OverrunIff(m, off, end, over, attrs, max);
    HeaderAsAttr(m, end, over, next, max);
  }

  lemma HeaderAsAttr(m: seq<byte>, end: nat, over: nat, next: Msg, max: nat)
    requires end + next.Len() <= |m| && MsgAt(m, end, next) && next.Len() < U16_RANGE && over <= |m|
    ensures (forall p :: p in Walk(m, end, over) ==> U16(m, p + 2) > max) <==> next.Len() > over - end
  {
    LengthAsAttr(m, end, next.Len());
    if next.Len() > over - end {
      assert !Whole(m, end, over);
    } else {
      assert Whole(m, end, over);
      assert Walk(m, end, over)[0] == end;
      assert end in Walk(m, end, over) && U16(m, end + 2) == 0;
    }
  }

  // ----- What the two tables of a message hold -----

  /** The bytes from `p` to `last` are whole messages, each with its padding. */
  predicate Messages(m: seq<byte>, p: nat, last: nat)
    requires last <= |m|
    decreases if p < last then last - p else 0
  {
    p == last || (p + NLMSGHDR <= last && U32(m, p) >= NLMSGHDR && Messages(m, NextMsg(m, p), last))
  }

  lemma {:induction false} MessagesOfStream(m: seq<byte>, p: nat, last: nat, msgs: seq<Msg>)
    requires Stream(m, p, last, msgs)
    ensures Messages(m, p, last)
    decreases |msgs|
  {
    if msgs != [] {
      StreamInside(m, p + msgs[0].Size(), last, msgs[1..]);
      MessagesOfStream(m, p + msgs[0].Size(), last, msgs[1..]);
    }
  }

  /** The bytes from `off` to `end` are whole attributes, each with its padding. */
  predicate Attrs(m: seq<byte>, off: nat, end: nat)
    requires end <= |m|
  {
    Stop(m, off, end) == end
  }

  /** The slot of exactly the attributes shows the last of its type. */
  lemma SlotShows(m: seq<byte>, off: nat, end: nat, attrs: seq<Attr>, t: nat)
    requires Laid(m, off, end, attrs)
    ensures Attrs(m, off, end) && Shows(m, Slot(m, off, end, t), LastAttr(attrs, t))
  {
    ParseLaid(m, off, end, attrs, t);
    SlotIsLast(m, off, end, t);
  }

  /** Slots compose over whole attributes, whatever follows them. */
  lemma {:induction false} SlotComposes(m: seq<byte>, off: nat, mid: nat, end: nat, t: nat)
    requires mid <= end <= |m| && Attrs(m, off, mid)
    ensures Slot(m, off, end, t) ==
            if Slot(m, mid, end, t).Some? then Slot(m, mid, end, t) else Slot(m, off, mid, t)
    decreases if off < mid then mid - off else 0
  {
    if Whole(m, off, mid) {
      SlotComposes(m, Next(m, off), mid, end, t);
    }
  }

  /** However far a walk runs on into further messages, it lands on their headers, which
      read as attributes of type 0. So nothing else is picked up but from what lies behind
      the data received. */
  lemma {:induction false} OverrunPicks(m: seq<byte>, p: nat, last: nat, over: int, t: nat)
    requires last <= |m| && over <= |m| && last < U16_RANGE && t > 0
    requires Messages(m, p, last)
    ensures Slot(m, p, over, t) == Slot(m, last, over, t)
    decreases if p < last then last - p else 0
  {
    if p != last {
      MessageInside(m, p, last);
      HeaderPicksNothing(m, p, U32(m, p), NextMsg(m, p), over, t);
      OverrunPicks(m, NextMsg(m, p), last, over, t);
    }
  }

  lemma MessageInside(m: seq<byte>, p: nat, last: nat)
    requires last <= |m| && Messages(m, p, last)
    ensures p <= last && (p < last ==> NextMsg(m, p) <= last)
  {
    if p != last {
      assert Messages(m, NextMsg(m, p), last);
    }
  }

  lemma HeaderPicksNothing(m: seq<byte>, p: nat, len: nat, next: nat, over: int, t: nat)
    requires p + 4 <= |m| && over <= |m| && t > 0
    requires U32(m, p) == len < U16_RANGE && len >= NLMSGHDR && next == p + AlignUp(len)
    ensures Slot(m, p, over, t) == Slot(m, next, over, t)
  {
    LengthAsAttr(m, p, len);
    assert Whole(m, p, over) || !Whole(m, next, over);
  }

  /** A table entry above 0 is the one for exactly the attributes if and only if the bytes
      that the walk reaches behind the data received do not look like such an attribute. */
  lemma SlotRightIff(m: seq<byte>, off: nat, end: nat, over: nat, last: nat, t: nat)
    requires last <= |m| && last < U16_RANGE && off <= end <= over <= |m| && t > 0
    requires Attrs(m, off, end) && Messages(m, end, last)
    ensures Slot(m, off, over, t) == Slot(m, off, end, t) <==> Slot(m, last, over, t).None?
  {
    SlotComposes(m, off, end, over, t);
    OverrunPicks(m, end, last, over, t);
    MessageInside(m, end, last);
  }

  /** At `h` there is a message of `len` bytes, which ends at `next`, and after it there are
      whole messages up to `last`. */
  predicate Received(m: seq<byte>, h: nat, len: nat, next: nat, last: nat) {
    && h + IFA_RTA <= next == h + AlignUp(len) && next <= last < U16_RANGE && last + IFLA_RTA <= |m|
    && U32(m, h) == len
    && Messages(m, next, last)
  }

  /** So it is for every message of a well-formed datagram. */
  lemma {:induction false} EachReceived(m: seq<byte>, h: nat, last: nat, msgs: seq<Msg>, i: nat)
    requires Stream(m, h, last, msgs) && last < U16_RANGE && last + IFLA_RTA <= |m|
    requires i < |msgs| && msgs[i].Len() >= IFA_RTA
    ensures var p := MsgOffsets(h, msgs)[i];
            Received(m, p, msgs[i].Len(), p + msgs[i].Size(), last)
    decreases |msgs|
  {
    if i == 0 {
      FirstReceived(m, h, last, msgs);
    } else {
      EachReceived(m, h + msgs[0].Size(), last, msgs[1..], i - 1);
    }
  }

  lemma FirstReceived(m: seq<byte>, h: nat, last: nat, msgs: seq<Msg>)
    requires Stream(m, h, last, msgs) && last < U16_RANGE && last + IFLA_RTA <= |m|
    requires msgs != [] && msgs[0].Len() >= IFA_RTA
    ensures Received(m, h, msgs[0].Len(), h + msgs[0].Size(), last)
  {
    StreamInside(m, h + msgs[0].Size(), last, msgs[1..]);
    MessagesOfStream(m, h + msgs[0].Size(), last, msgs[1..]);
  }

  lemma SlotsReceived(m: seq<byte>, h: nat, len: nat, next: nat, last: nat, over: nat)
    requires Received(m, h, len, next, last) && over == h + IFLA_RTA + len
    ensures InReach(m, h) && next <= over <= |m|
    ensures NameSlot(m, h) == Slot(m, h + IFLA_RTA, over, IFLA_IFNAME)
  {
  }

  /** Link messages: the interface name is right if and only if what the walk reaches behind
      the data received does not look like one. */
  lemma LinkNameIff(m: seq<byte>, h: nat, len: nat, next: nat, last: nat)
    requires Received(m, h, len, next, last) && Attrs(m, h + IFLA_RTA, next)
    ensures InReach(m, h)
    ensures NameSlot(m, h) == Slot(m, h + IFLA_RTA, next, IFLA_IFNAME)
       <==> Slot(m, last, h + IFLA_RTA + len, IFLA_IFNAME).None?
  {
    SlotRightIff(m, h + IFLA_RTA, next, h + IFLA_RTA + len, last, IFLA_IFNAME);
  }

  /** Address messages: the same of the local address. */
  lemma LocalIff(m: seq<byte>, h: nat, len: nat, next: nat, last: nat)
    requires Received(m, h, len, next, last) && Attrs(m, h + IFA_RTA, next)
    ensures InReach(m, h)
    ensures LocalSlot(m, h) == Slot(m, h + IFA_RTA, next, IFA_LOCAL)
       <==> Slot(m, last, h + IFA_RTA + len, IFA_LOCAL).None?
  {
    SlotRightIff(m, h + IFA_RTA, next, h + IFA_RTA + len, last, IFA_LOCAL);
  }

  /** So the name shown is the last one among the attributes laid out in the message. */
  lemma LinkNameShows(m: seq<byte>, h: nat, len: nat, next: nat, last: nat, attrs: seq<Attr>)
    requires Received(m, h, len, next, last) && Laid(m, h + IFLA_RTA, next, attrs)
    requires Slot(m, last, h + IFLA_RTA + len, IFLA_IFNAME).None?
    ensures InReach(m, h) && Shows(m, NameSlot(m, h), LastAttr(attrs, IFLA_IFNAME))
  {
    SlotShows(m, h + IFLA_RTA, next, attrs, IFLA_IFNAME);
    LinkNameIff(m, h, len, next, last);
  }

  lemma LocalShows(m: seq<byte>, h: nat, len: nat, next: nat, last: nat, attrs: seq<Attr>)
    requires Received(m, h, len, next, last) && Laid(m, h + IFA_RTA, next, attrs)
    requires Slot(m, last, h + IFA_RTA + len, IFA_LOCAL).None?
    ensures InReach(m, h) && Shows(m, LocalSlot(m, h), LastAttr(attrs, IFA_LOCAL))
  {
    SlotShows(m, h + IFA_RTA, next, attrs, IFA_LOCAL);
    LocalIff(m, h, len, next, last);
  }

  /** When 32 bytes of other messages follow, nothing stale is reached. */
  lemma NothingStale(m: seq<byte>, h: nat, len: nat, next: nat, last: nat, t: nat)
    requires Received(m, h, len, next, last) && next + IFLA_RTA <= last
    ensures h + IFLA_RTA + len <= |m|
    ensures Slot(m, last, h + IFLA_RTA + len, t) == Slot(m, last, h + IFA_RTA + len, t) == None
  {
  }

  /** The attributes of an address message start 8 bytes before those of a link message, so
      the walk for the name starts in their midst. If it falls in step with them at `q`, the
      name is right if and only if nothing stale looks like one, and the attributes from `q`
      on hold one or else those before `q` are read with the same result. */
  lemma AddressNameInStep(m: seq<byte>, h: nat, len: nat, next: nat, last: nat, q: nat)
    requires Received(m, h, len, next, last) && q <= next
    requires Attrs(m, h + IFA_RTA, q) && Attrs(m, h + IFLA_RTA, q) && Attrs(m, q, next)
    ensures InReach(m, h)
    ensures NameSlot(m, h) == Slot(m, h + IFA_RTA, next, IFLA_IFNAME)
       <==> && Slot(m, last, h + IFLA_RTA + len, IFLA_IFNAME).None?
            && (Slot(m, q, next, IFLA_IFNAME).Some?
                || Slot(m, h + IFLA_RTA, q, IFLA_IFNAME) == Slot(m, h + IFA_RTA, q, IFLA_IFNAME))
  {
    var off, mid, over := h + IFA_RTA, h + IFLA_RTA, h + IFLA_RTA + len;
    SlotsReceived(m, h, len, next, last, over);
    InStepIff(m, off, mid, q, next, over, last, IFLA_IFNAME,
              Slot(m, off, q, IFLA_IFNAME), Slot(m, mid, q, IFLA_IFNAME), Slot(m, q, next, IFLA_IFNAME));
  }

  lemma InStepIff(m: seq<byte>, off: nat, mid: nat, q: nat, end: nat, over: nat, last: nat, t: nat,
                  before: Option<nat>, misread: Option<nat>, after: Option<nat>)
    requires last <= |m| && last < U16_RANGE && off <= q && mid <= q <= end <= over <= |m| && t > 0
    requires Attrs(m, off, q) && Attrs(m, mid, q) && Attrs(m, q, end) && Messages(m, end, last)
    requires before == Slot(m, off, q, t) && misread == Slot(m, mid, q, t) && after == Slot(m, q, end, t)
    ensures Slot(m, mid, over, t) == Slot(m, off, end, t)
       <==> Slot(m, last, over, t).None? && (after.Some? || misread == before)
  {
    SlotComposes(m, off, q, end, t);
    SlotComposes(m, mid, q, over, t);
    SlotComposes(m, q, end, over, t);
    OverrunPicks(m, end, last, over, t);
    MessageInside(m, end, last);
  }

  /** In particular when whole attributes fill the 8 bytes passed over. */
  lemma AddressNameIff(m: seq<byte>, h: nat, len: nat, next: nat, last: nat)
    requires Received(m, h, len, next, last)
    requires Attrs(m, h + IFA_RTA, h + IFLA_RTA) && Attrs(m, h + IFLA_RTA, next)
    ensures InReach(m, h)
    ensures NameSlot(m, h) == Slot(m, h + IFA_RTA, next, IFLA_IFNAME)
       <==> && Slot(m, last, h + IFLA_RTA + len, IFLA_IFNAME).None?
            && (Slot(m, h + IFLA_RTA, next, IFLA_IFNAME).Some?
                || Slot(m, h + IFA_RTA, h + IFLA_RTA, IFLA_IFNAME).None?)
  {
    NothingBefore(m, h + IFLA_RTA, IFLA_IFNAME);
    AddressNameInStep(m, h, len, next, last, h + IFLA_RTA);
  }

  lemma NothingBefore(m: seq<byte>, p: nat, t: nat)
    requires p <= |m|
    ensures Attrs(m, p, p) && Slot(m, p, p, t).None?
  {
  }

  /** A walk from `a` visits `p`. */
  predicate Meets(m: seq<byte>, a: nat, p: nat, end: int): (met: bool)
    requires end <= |m|
    ensures met ==> a <= p && Whole(m, p, end)
    decreases if a < end then end - a else 0
  {
    Whole(m, a, end) && (a == p || Meets(m, Next(m, a), p, end))
  }

  /** The bytes from `a` on look like the attributes `attrs`, whatever they are, and then
      like none that ends before `end`. */
  ghost predicate LooksLike(m: seq<byte>, a: nat, end: nat, attrs: seq<Attr>)
    requires end <= |m|
    decreases |attrs|
  {
    if attrs == [] then end - a < RTATTR || U16(m, a) < RTATTR || U16(m, a) > end - a else
      && a + attrs[0].Len() <= end
      && AttrAt(m, a, attrs[0])
      && LooksLike(m, a + attrs[0].Size(), end, attrs[1..])
  }

  /** Any bytes look like some attributes, if only like none. */
  lemma {:induction false} LooksLikeSome(m: seq<byte>, a: nat, end: nat) returns (attrs: seq<Attr>)
    requires end <= |m|
    ensures LooksLike(m, a, end, attrs)
    decreases if a < end then end - a else 0
  {
    attrs := [];
    if Whole(m, a, end) {
      var rest := LooksLikeSome(m, Next(m, a), end);
      attrs := [DecodeOne(m, a)] + rest;
      assert attrs[1..] == rest;
    }
  }

  lemma {:induction false} LooksLikeShows(m: seq<byte>, a: nat, end: nat, attrs: seq<Attr>, t: nat)
    requires end <= |m| && LooksLike(m, a, end, attrs)
    ensures Shows(m, Slot(m, a, end, t), LastAttr(attrs, t))
    decreases |attrs|
  {
    if attrs != [] {
      var next := a + attrs[0].Size();
      assert Whole(m, a, end) && Next(m, a) == next;
      LooksLikeShows(m, next, end, attrs[1..], t);
      HeadShows(m, a, attrs, Slot(m, next, end, t), t);
    }
  }

  /** In any case, the name is right if and only if the misplaced walk meets the last of the
      attributes that hold one and nothing stale looks like one; or, if none holds one, the
      bytes from where the walk starts look like attributes among which there is no name. */
  lemma AddressNameMet(m: seq<byte>, h: nat, len: nat, next: nat, last: nat, right: Option<nat>, misread: seq<Attr>)
    requires Received(m, h, len, next, last) && Attrs(m, h + IFA_RTA, next)
    requires right == Slot(m, h + IFA_RTA, next, IFLA_IFNAME)
    requires h + IFLA_RTA + len <= |m| && LooksLike(m, h + IFLA_RTA, h + IFLA_RTA + len, misread)
    ensures InReach(m, h)
    ensures NameSlot(m, h) == right <==>
              match right
              case None => forall a :: a in misread ==> a.typ != IFLA_IFNAME
              case Some(p) =>
                && Meets(m, h + IFLA_RTA, p, h + IFLA_RTA + len)
                && Slot(m, last, h + IFLA_RTA + len, IFLA_IFNAME).None?
  {
    SlotsReceived(m, h, len, next, last, h + IFLA_RTA + len);
    MetIff(m, h + IFA_RTA, h + IFLA_RTA, next, h + IFLA_RTA + len, last, IFLA_IFNAME, right, misread);
  }

  lemma MetIff(m: seq<byte>, off: nat, mid: nat, end: nat, over: nat, last: nat, t: nat,
               right: Option<nat>, misread: seq<Attr>)
    requires last <= |m| && last < U16_RANGE && off <= end <= over <= |m| && t > 0
    requires Attrs(m, off, end) && Messages(m, end, last) && right == Slot(m, off, end, t)
    requires LooksLike(m, mid, over, misread)
    ensures Slot(m, mid, over, t) == right <==>
              match right
              case None => forall a :: a in misread ==> a.typ != t
              case Some(p) => Meets(m, mid, p, over) && Slot(m, last, over, t).None?
  {
    if right.Some? {
      OutOfStepIff(m, off, mid, end, over, last, t, right.value);
    } else {
      NoneIffNotAmong(m, mid, over, misread, t);
    }
  }

  lemma NoneIffNotAmong(m: seq<byte>, a: nat, end: nat, attrs: seq<Attr>, t: nat)
    requires end <= |m| && LooksLike(m, a, end, attrs)
    ensures Slot(m, a, end, t).None? <==> forall b :: b in attrs ==> b.typ != t
  {
    LooksLikeShows(m, a, end, attrs, t);
  }

  lemma OutOfStepIff(m: seq<byte>, off: nat, mid: nat, end: nat, over: nat, last: nat, t: nat, p: nat)
    requires last <= |m| && last < U16_RANGE && off <= end <= over <= |m| && t > 0
    requires Attrs(m, off, end) && Messages(m, end, last) && Slot(m, off, end, t) == Some(p)
    ensures Slot(m, mid, over, t) == Some(p) <==> Meets(m, mid, p, over) && Slot(m, last, over, t).None?
  {
    SlotMet(m, mid, over, t);
    LastStaysIff(m, off, end, over, last, t, p);
    if Meets(m, mid, p, over) {
      SameSlotFrom(m, mid, p, over, t);
    }
  }

  lemma LastStaysIff(m: seq<byte>, off: nat, end: nat, over: nat, last: nat, t: nat, p: nat)
    requires last <= |m| && last < U16_RANGE && off <= end <= over <= |m| && t > 0
    requires Attrs(m, off, end) && Messages(m, end, last) && Slot(m, off, end, t) == Some(p)
    ensures Slot(m, p, over, t) == Some(p) <==> Slot(m, last, over, t).None?
  {
    SlotMet(m, off, end, t);
    MetBeyond(m, off, p, end, over);
    SameSlotFrom(m, off, p, over, t);
    SlotRightIff(m, off, end, over, last, t);
  }

  lemma {:induction false} SlotMet(m: seq<byte>, a: nat, end: int, t: nat)
    requires end <= |m|
    ensures var p := Slot(m, a, end, t); p.Some? ==> Meets(m, a, p.value, end)
    decreases if a < end then end - a else 0
  {
    if Whole(m, a, end) {
      SlotMet(m, Next(m, a), end, t);
    }
  }

  lemma {:induction false} MetBeyond(m: seq<byte>, a: nat, p: nat, end: int, over: int)
    requires end <= over <= |m| && Meets(m, a, p, end)
    ensures Meets(m, a, p, over)
    decreases if a < end then end - a else 0
  {
    if a != p {
      MetBeyond(m, Next(m, a), p, end, over);
    }
  }

  /** From an attribute of the type on, all walks that meet it find the same. */
  lemma {:induction false} SameSlotFrom(m: seq<byte>, a: nat, p: nat, end: int, t: nat)
    requires end <= |m| && Meets(m, a, p, end) && U16(m, p + 2) == t
    ensures Slot(m, a, end, t) == Slot(m, p, end, t) && Slot(m, p, end, t).Some?
    decreases if a < end then end - a else 0
  {
    if a != p {
      SameSlotFrom(m, Next(m, a), p, end, t);
    }
  }

  // ----- What is announced -----

  /** What is announced of a message, by the numbers of the message types: 24 and 25 say that
      routes changed, 16 and 17 that a link is new or gone, 20 and 21 that an address is, and
      all others nothing. */
  predicate Announces(n: Notice, typ: nat) {
    && (n.Routes? <==> typ == 24 || typ == 25)
    && (n.NewLink? <==> typ == 16)
    && (n.DelLink? <==> typ == 17)
    && (n.NewAddr? <==> typ == 20)
    && (n.DelAddr? <==> typ == 21)
  }

  /** The monitor announces a message by its type, and a new link with its flags, which are
      bits 0 and 6 of the word at offset 8 of its payload. */
  lemma NoticeOfMessage(m: seq<byte>, h: nat, msg: Msg, n: Notice)
    requires h + msg.Len() <= |m| && MsgAt(m, h, msg) && InReach(m, h) && n == NoticeOf(m, h)
    ensures Announces(n, msg.typ)
    ensures n.NewLink? && |msg.payload| >= 12 ==>
              && (n.up <==> msg.payload[8] % 2 == 1)
              && (n.running <==> msg.payload[8] / 64 % 2 == 1)
  {
    if n.NewLink? && |msg.payload| >= 12 {
      LinkFlags(m, h, msg);
    }
  }

  lemma LinkFlags(m: seq<byte>, h: nat, msg: Msg)
    requires h + msg.Len() <= |m| && MsgAt(m, h, msg) && |msg.payload| >= 12
    ensures var flags := U32(m, h + IFI_FLAGS);
            flags % 2 == msg.payload[8] % 2 && flags / 64 % 2 == msg.payload[8] / 64 % 2
  {
    assert m[h + 24] == m[h + 16..h + msg.Len()][8];
    LowBits(m, h + 24);
  }

  lemma LowBits(m: seq<byte>, at: nat)
    requires at + 4 <= |m|
    ensures U32(m, at) % 2 == m[at] as int % 2 && U32(m, at) / 64 % 2 == m[at] as int / 64 % 2
  {
    var rest := m[at + 1] as int + 0x100 * U16(m, at + 2);
    assert U32(m, at) == m[at] as int + 0x100 * rest;
    LowBitsOf(m[at] as int, rest);
  }

  lemma LowBitsOf(low: nat, rest: nat)
    ensures (low + 0x100 * rest) % 2 == low % 2 && (low + 0x100 * rest) / 64 % 2 == low / 64 % 2
  {
    Div64(low + 0x100 * rest, low / 64 + 4 * rest, low % 64);
    Even(low, 0x80 * rest);
    Even(low / 64, 2 * rest);
  }

  lemma Div64(x: nat, q: nat, r: nat)
    requires x == 64 * q + r && r < 64
    ensures x / 64 == q
  {
  }

  lemma Even(x: nat, y: nat)
    ensures (x + 2 * y) % 2 == x % 2
  {
  }

  /** A link that is new or gone is announced with the last name (type 3) among the
      attributes of its message, which start 32 bytes into it. */
  lemma LinkAnnounced(m: seq<byte>, h: nat, msg: Msg, next: nat, last: nat, attrs: seq<Attr>, n: Notice)
    requires Received(m, h, msg.Len(), next, last) && MsgAt(m, h, msg) && Laid(m, h + 32, next, attrs)
    requires Slot(m, last, h + 32 + msg.Len(), 3).None? && (msg.typ == 16 || msg.typ == 17)
    requires InReach(m, h) && n == NoticeOf(m, h)
    ensures Announces(n, msg.typ)
    ensures Shows(m, n.name, LastAttr(attrs, 3))
  {
    LinkNameShows(m, h, msg.Len(), next, last, attrs);
    NamesAnnounced(m, h, n);
    NoticeOfMessage(m, h, msg, n);
  }

  lemma NamesAnnounced(m: seq<byte>, h: nat, n: Notice)
    requires InReach(m, h) && n == NoticeOf(m, h)
    ensures n.NewLink? || n.DelLink? || n.NewAddr? || n.DelAddr? ==> n.name == NameSlot(m, h)
    ensures n.NewAddr? ==> n.local == LocalSlot(m, h)
  {
  }

  /** A new address is announced with the last local address (type 2) among the attributes
      of its message, which start 24 bytes into it. */
  lemma AddressAnnounced(m: seq<byte>, h: nat, msg: Msg, next: nat, last: nat, attrs: seq<Attr>, n: Notice)
    requires Received(m, h, msg.Len(), next, last) && MsgAt(m, h, msg) && Laid(m, h + 24, next, attrs)
    requires Slot(m, last, h + 24 + msg.Len(), 2).None? && msg.typ == 20
    requires InReach(m, h) && n == NoticeOf(m, h)
    ensures n.NewAddr? && Announces(n, msg.typ) && Shows(m, n.local, LastAttr(attrs, 2))
  {
    LocalShows(m, h, msg.Len(), next, last, attrs);
    NamesAnnounced(m, h, n);
    NoticeOfMessage(m, h, msg, n);
  }

  /** An address that is new or gone is announced with the last name among the attributes of
      its message whenever the name is right, as AddressNameInStep and AddressNameMet say. */
  lemma AddressNameAnnounced(m: seq<byte>, h: nat, msg: Msg, next: nat, attrs: seq<Attr>, n: Notice)
    requires h + msg.Len() <= |m| && MsgAt(m, h, msg) && (msg.typ == 20 || msg.typ == 21)
    requires InReach(m, h) && n == NoticeOf(m, h)
    requires Laid(m, h + 24, next, attrs) && NameSlot(m, h) == Slot(m, h + 24, next, 3)
    ensures if msg.typ == 20 then n.NewAddr? else n.DelAddr?
    ensures Shows(m, n.name, LastAttr(attrs, 3))
  {
    SlotShows(m, h + 24, next, attrs, 3);
    NamesAnnounced(m, h, n);
    NoticeOfMessage(m, h, msg, n);
  }

  /** Over a whole datagram, whose messages the monitor visits at just these places, each is
      announced by its type, and the conditions of the lemmas above hold of it. */
  lemma {:induction false} DatagramAnnounced(m: seq<byte>, h: nat, last: nat, msgs: seq<Msg>, i: nat, p: nat,
                                             msg: Msg)
    requires Stream(m, h, last, msgs) && last < U16_RANGE && last + IFLA_RTA <= |m|
    requires i < |msgs| && msg == msgs[i] && msg.Len() >= IFA_RTA && p == MsgOffsets(h, msgs)[i]
    ensures p + msg.Len() <= |m| && MsgAt(m, p, msg) && Received(m, p, msg.Len(), p + msg.Size(), last)
    ensures InReach(m, p) && Announces(NoticeOf(m, p), msg.typ)
    decreases |msgs|
  {
    if i == 0 {
      FirstReceived(m, h, last, msgs);
      ReceivedAnnounced(m, h, msg, h + msg.Size(), last);
    } else {
      DatagramAnnounced(m, h + msgs[0].Size(), last, msgs[1..], i - 1, p, msg);
    }
  }

  lemma ReceivedAnnounced(m: seq<byte>, h: nat, msg: Msg, next: nat, last: nat)
    requires h + msg.Len() <= |m| && MsgAt(m, h, msg) && Received(m, h, msg.Len(), next, last)
    ensures InReach(m, h) && Announces(NoticeOf(m, h), msg.typ)
  {
    SlotsReceived(m, h, msg.Len(), next, last, h + IFLA_RTA + msg.Len());
    NoticeOfMessage(m, h, msg, NoticeOf(m, h));
  }

  // ----- What the walks read -----

  /** A walk reads nothing from `limit` on: the length of an attribute wherever a header is
      left, and the rest of the header if that is whole. */
  predicate ReadsBelow(m: seq<byte>, a: nat, end: int, limit: nat)
    requires end <= |m|
    decreases if a < end then end - a else 0
  {
    && (end - a >= RTATTR ==> a + 2 <= limit)
    && (Whole(m, a, end) ==> a + RTATTR <= limit && ReadsBelow(m, Next(m, a), end, limit))
  }

  /** On any bytes, that is decided by the last attribute visited and the place behind it. */
  lemma {:induction false} ReadsBelowIff(m: seq<byte>, a: nat, end: nat, limit: nat)
    requires end <= |m|
    ensures var w, s := Walk(m, a, end), Stop(m, a, end);
            ReadsBelow(m, a, end, limit) <==>
              (w != [] ==> w[|w| - 1] + RTATTR <= limit) && (end - s >= RTATTR ==> s + 2 <= limit)
    decreases if a < end then end - a else 0
  {
    if Whole(m, a, end) {
      var w := Walk(m, Next(m, a), end);
      ReadsBelowIff(m, Next(m, a), end, limit);
      assert w != [] ==> ([a] + w)[|w|] == w[|w| - 1] && a <= w[|w| - 1];
    }
  }

  /** What is not read does not matter: the entry is the same whatever lies there. */
  lemma {:induction false} UnreadDoesNotMatter(m: seq<byte>, m': seq<byte>, a: nat, end: int, limit: nat, t: nat)
    requires |m| == |m'| && end <= |m| && limit <= |m| && ReadsBelow(m, a, end, limit)
    requires forall i :: 0 <= i < limit ==> m[i] == m'[i]
    ensures ReadsBelow(m', a, end, limit) && Slot(m', a, end, t) == Slot(m, a, end, t)
    decreases if a < end then end - a else 0
  {
    if Whole(m, a, end) {
      UnreadDoesNotMatter(m, m', Next(m, a), end, limit, t);
    }
  }

  /** Over whole attributes and messages a walk reads behind the data received if and only if
      it may go on for another header there. */
  lemma {:induction false} ReadsBehindIff(m: seq<byte>, p: nat, last: nat, over: int)
    requires last <= |m| && over <= |m| && last < U16_RANGE && Messages(m, p, last)
    ensures ReadsBelow(m, p, over, last) <==> over < last + RTATTR
    decreases if p < last then last - p else 0
  {
    if p != last {
      MessageInside(m, p, last);
      LengthAsAttr(m, p, U32(m, p));
      ReadsBehindIff(m, NextMsg(m, p), last, over);
      assert Whole(m, p, over) ==> Next(m, p) == NextMsg(m, p);
    }
  }

  lemma {:induction false} AttrsReadBelow(m: seq<byte>, off: nat, mid: nat, end: int, limit: nat)
    requires mid <= end <= |m| && mid <= limit && Attrs(m, off, mid)
    ensures ReadsBelow(m, off, end, limit) <==> ReadsBelow(m, mid, end, limit)
    decreases if off < mid then mid - off else 0
  {
    if Whole(m, off, mid) {
      AttrsReadBelow(m, Next(m, off), mid, end, limit);
    }
  }

  /** The table of a message's own kind: the walk that fills it reads behind the data
      received if and only if the end it was given lies four or more bytes behind them. */
  lemma TableReadsBehindIff(m: seq<byte>, h: nat, len: nat, next: nat, last: nat, rta: nat)
    requires Received(m, h, len, next, last) && rta in {IFLA_RTA, IFA_RTA} && Attrs(m, h + rta, next)
    ensures h + rta + len <= |m|
    ensures ReadsBelow(m, h + rta, h + rta + len, last) <==> h + rta + len < last + RTATTR
  {
    AttrsReadBelow(m, h + rta, next, h + rta + len, last);
    ReadsBehindIff(m, next, last, h + rta + len);
  }

  // ----- Tables that are wrong -----

  function Zeros(n: nat): (m: seq<byte>)
    ensures |m| == n && forall i :: 0 <= i < n ==> m[i] == 0
  {
    seq(n, i => 0)
  }

  /** A link message without attributes, followed by the remains of an earlier datagram:
      these are taken for its interface name. */
  lemma StaleName()
    ensures var m := Zeros(64)[0 := 32][4 := RTM_NEWLINK][32 := 4][34 := IFLA_IFNAME];
            && Received(m, 0, 32, 32, 32) && Attrs(m, 32, 32)
            && NoticeOf(m, 0) == NewLink(Some(32), false, false) && Slot(m, 32, 32, IFLA_IFNAME) == None
            && !ReadsBelow(m, 32, 64, 32)
  {
    var m := Zeros(64)[0 := 32][4 := RTM_NEWLINK][32 := 4][34 := IFLA_IFNAME];
    assert U32(m, 0) == 32 && U16(m, 32) == 4 && U16(m, 36) == 0;
    assert !Whole(m, 36, 64) && Next(m, 32) == 36;
  }

  /** A next message of 16 bytes appears as an attribute of type 0. */
  lemma NextInSlotZero()
    ensures var m := Zeros(80)[0 := 32][32 := 16];
            && Received(m, 0, 32, 32, 48) && Attrs(m, 32, 32)
            && Slot(m, 32, 64, 0) == Some(32) && Slot(m, 32, 32, 0) == None
  {
    var m := Zeros(80)[0 := 32][32 := 16];
    assert U32(m, 0) == 32 && U32(m, 32) == 16 && U16(m, 48) == 0;
    assert NextMsg(m, 32) == 48 && Messages(m, 48, 48);
    assert !Whole(m, 48, 64) && Next(m, 32) == 48;
  }

  /** An address message with one address of 16 bytes, some of which are taken for a name. */
  lemma StrayName()
    ensures var m := Zeros(76)[0 := 44][4 := RTM_NEWADDR][24 := 20][26 := 1][32 := 4][34 := IFLA_IFNAME];
            && Received(m, 0, 44, 44, 44) && Attrs(m, 24, 44)
            && NoticeOf(m, 0) == NewAddr(Some(32), None) && Slot(m, 24, 44, IFLA_IFNAME) == None
            && LooksLike(m, 32, 76, [Attr(IFLA_IFNAME, [])])
  {
    var m := Zeros(76)[0 := 44][4 := RTM_NEWADDR][24 := 20][26 := 1][32 := 4][34 := IFLA_IFNAME];
    assert U32(m, 0) == 44 && U16(m, 24) == 20 && U16(m, 32) == 4 && U16(m, 36) == 0 && U16(m, 44) == 0;
    AlignFormula(44);
    AlignFormula(20);
    assert Next(m, 24) == 44 && Next(m, 32) == 36;
    assert !Whole(m, 36, 76) && !Whole(m, 44, 68) && !Whole(m, 44, 44);
    assert LooksLike(m, 36, 76, []) && [Attr(IFLA_IFNAME, [])][1..] == [];
  }
}
