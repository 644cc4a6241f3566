/** The monitor (netlink/netmon.c): its loop over the messages of one datagram, and what it
    makes of each. */
module Netmon {
  import opened Bytes
  import opened RtAttr
  import opened NlStream

  /** The test that makes the monitor complain and `continue`, in 32-bit arithmetic:
      `len` is nlmsg_len as an int, `l` is len - sizeof(*h) as an int. */
  predicate Rejected(m: seq<byte>, h: nat, status: int)
    requires h + NLMSGHDR <= |m|
  {
    var len := ToInt32(U32(m, h));
    ToInt32(len - NLMSGHDR) < 0 || len > status
  }

  /** A header passes only if it covers itself and moves the scan on. */
  lemma AcceptedAdvances(m: seq<byte>, h: nat, status: int)
    requires h + NLMSGHDR <= |m| && !Rejected(m, h, status)
    ensures U32(m, h) >= NLMSGHDR && NextMsg(m, h) >= h + NLMSGHDR
  {
  }

  /** The scan started at `h` with `end - h` bytes left never meets a rejected header. */
  predicate Accepts(m: seq<byte>, h: nat, end: nat)
    requires end <= |m|
    decreases if h < end then end - h else 0
  {
    end - h < NLMSGHDR ||
    (!Rejected(m, h, end - h) && (AcceptedAdvances(m, h, end - h); Accepts(m, NextMsg(m, h), end)))
  }

  /** The headers visited before the buffer is used up or a header is rejected. */
  function Visits(m: seq<byte>, h: nat, end: nat): (w: seq<nat>)
    requires end <= |m|
    ensures forall i :: 0 <= i < |w| ==> Visited(m, w[i], end)
    decreases if h < end then end - h else 0
  {
    if end - h < NLMSGHDR || Rejected(m, h, end - h) then []
    else
      AcceptedAdvances(m, h, end - h);
      [h] + Visits(m, NextMsg(m, h), end)
  }

  predicate Visited(m: seq<byte>, h: nat, end: nat)
    requires end <= |m|
  {
    end - h >= NLMSGHDR && !Rejected(m, h, end - h)
  }

  const RTM_NEWLINK := 16
  const RTM_DELLINK := 17
  const RTM_NEWADDR := 20
  const RTM_DELADDR := 21
  const RTM_NEWROUTE := 24
  const RTM_DELROUTE := 25

  const IFLA_IFNAME := 3
  const IFA_LOCAL := 2

  /** IFLA_RTA and IFA_RTA: what precedes the attributes, nlmsghdr with ifinfomsg or with
      ifaddrmsg. */
  const IFLA_RTA := 32
  const IFA_RTA := 24

  const IFI_FLAGS := 24

  /** What the monitor prints about a message; an address of None is uninitialised. */
  datatype Notice =
    | Routes
    | NewLink(name: Option<nat>, up: bool, running: bool)
    | DelLink(name: Option<nat>)
    | NewAddr(name: Option<nat>, local: Option<nat>)
    | DelAddr(name: Option<nat>)
    | Silent

  /** Where the walk of an attribute table ends: the length is that of the whole message. */
  function WalkEnd(m: seq<byte>, h: nat, rta: nat): int
    requires h + NLMSGHDR <= |m|
  {
    h + rta + ToInt32(U32(m, h))
  }

  /** What the monitor may read for a message at `h`. */
  predicate InReach(m: seq<byte>, h: nat) {
    h + IFLA_RTA <= |m| && WalkEnd(m, h, IFLA_RTA) <= |m|
  }

  /** The entry for type `t` of a table: the last attribute of that type between `rta` and
      `end`. */
  function Slot(m: seq<byte>, rta: nat, end: int, t: nat): (p: Option<nat>)
    requires end <= |m|
    ensures p.Some? ==> rta <= p.value && p.value + RTATTR <= end && U16(m, p.value + 2) == t
    decreases if rta < end then end - rta else 0
  {
    if !Whole(m, rta, end) then None
    else
      var later := Slot(m, Next(m, rta), end, t);
      if later.None? && U16(m, rta + 2) == t then Some(rta) else later
  }

  /** That is what parseRtattr leaves in its table. */
  lemma {:induction false} SlotIsLast(m: seq<byte>, rta: nat, end: int, t: nat)
    requires end <= |m|
    ensures Slot(m, rta, end, t) == LastOfType(m, Walk(m, rta, end), t)
    decreases if rta < end then end - rta else 0
  {
    if Whole(m, rta, end) {
      SlotIsLast(m, Next(m, rta), end, t);
      HeadSlot(m, rta, Walk(m, Next(m, rta), end), t);
    }
  }

  /** tb[IFLA_IFNAME]. */
  function NameSlot(m: seq<byte>, h: nat): Option<nat>
    requires InReach(m, h)
  {
    Slot(m, h + IFLA_RTA, WalkEnd(m, h, IFLA_RTA), IFLA_IFNAME)
  }

  /** tba[IFA_LOCAL]. */
  function LocalSlot(m: seq<byte>, h: nat): Option<nat>
    requires InReach(m, h)
  {
    Slot(m, h + IFA_RTA, WalkEnd(m, h, IFA_RTA), IFA_LOCAL)
  }

  /** IFF_UP is 1, IFF_RUNNING is 64. */
  function NoticeOf(m: seq<byte>, h: nat): Notice
    requires InReach(m, h)
  {
    var typ, flags, name := U16(m, h + 4), U32(m, h + IFI_FLAGS), NameSlot(m, h);
    if typ == RTM_NEWROUTE || typ == RTM_DELROUTE then Routes
    else if typ == RTM_DELADDR then DelAddr(name)
    else if typ == RTM_DELLINK then DelLink(name)
    else if typ == RTM_NEWLINK then NewLink(name, flags % 2 == 1, flags / 64 % 2 == 1)
    else if typ == RTM_NEWADDR then NewAddr(name, LocalSlot(m, h))
    else Silent
  }

  /** The loop of the monitor over one datagram, in a buffer that can be read for 32 bytes
      more. A rejected header is met again in every further turn: `stuck` says so. */
  method Monitor(m: seq<byte>, received: nat, iflaMax: nat, ifaMax: nat)
    returns (visited: seq<nat>, notices: seq<Notice>, stuck: bool)
    requires received + IFLA_RTA <= |m| && iflaMax >= IFLA_IFNAME && ifaMax >= IFA_LOCAL
    ensures visited == Visits(m, 0, received) && |notices| == |visited|
    ensures forall i :: 0 <= i < |visited| ==> InReach(m, visited[i]) && notices[i] == NoticeOf(m, visited[i])
    ensures stuck <==> !Accepts(m, 0, received)
  {
    visited, notices := [], [];
    var h, status: int := 0, received;
    assert Visits(m, 0, received) == [] + Visits(m, 0, received);
    while status >= NLMSGHDR
      invariant 0 <= h && h + status == received
      invariant Accepts(m, h, received) == Accepts(m, 0, received)
      invariant Visits(m, 0, received) == visited + Visits(m, h, received)
      invariant |notices| == |visited|
      invariant forall i :: 0 <= i < |visited| ==> InReach(m, visited[i]) && notices[i] == NoticeOf(m, visited[i])
      decreases status
    {
      if Rejected(m, h, status) {
        assert visited + [] == visited;
        return visited, notices, true;
      }
      AcceptedAdvances(m, h, status);
      Reassociate(visited, [h], Visits(m, NextMsg(m, h), received));
      var notice := Notify(m, h, iflaMax, ifaMax);
      var next := NextMsg(m, h);
      visited, notices, h, status := visited + [h], notices + [notice], next, status - (next - h);
    }
    assert visited + [] == visited;
    return visited, notices, false;
  }

  /** One message: the tables of link and of address attributes, both for every message. */
  method Notify(m: seq<byte>, h: nat, iflaMax: nat, ifaMax: nat) returns (notice: Notice)
    requires InReach(m, h) && iflaMax >= IFLA_IFNAME && ifaMax >= IFA_LOCAL
    ensures notice == NoticeOf(m, h)
  {
    var typ := U16(m, h + 4);
    if typ == RTM_NEWROUTE || typ == RTM_DELROUTE {
      return Routes;
    }
    var ifName := TableEntry(m, h, IFLA_RTA, iflaMax, IFLA_IFNAME);
    var flags := U32(m, h + IFI_FLAGS);
    var up, running := flags % 2 == 1, flags / 64 % 2 == 1;
    var ifAddress := TableEntry(m, h, IFA_RTA, ifaMax, IFA_LOCAL);
    if typ == RTM_DELADDR {
      return DelAddr(ifName);
    } else if typ == RTM_DELLINK {
      return DelLink(ifName);
    } else if typ == RTM_NEWLINK {
      return NewLink(ifName, up, running);
    } else if typ == RTM_NEWADDR {
      return NewAddr(ifName, ifAddress);
    }
    return Silent;
  }

  /** A table parsed with nlmsg_len for its length, and the entry taken from it. */
  method TableEntry(m: seq<byte>, h: nat, rta: nat, max: nat, t: nat) returns (entry: Option<nat>)
    requires InReach(m, h) && rta <= IFLA_RTA && t <= max
    ensures entry == Slot(m, h + rta, WalkEnd(m, h, rta), t)
  {
    var tb := new Option<nat>[max + 1];
    var len := ToInt32(U32(m, h));
    ParseRtattr(tb, max, m, h + rta, len);
    SlotIsLast(m, h + rta, h + rta + len, t);
    entry := tb[t];
    assert entry == tb[..][t];
  }

  /** Every message of a well-formed buffer is visited once, in order. */
  lemma {:induction false} MonitorVisitsStream(m: seq<byte>, h: nat, end: nat, msgs: seq<Msg>)
    requires Stream(m, h, end, msgs) && end < INT_RANGE
    ensures Accepts(m, h, end) && Visits(m, h, end) == MsgOffsets(h, msgs)
    decreases |msgs|
  {
    if msgs != [] {
      HeadAccepted(m, h, end, msgs[0]);
      MonitorVisitsStream(m, h + msgs[0].Size(), end, msgs[1..]);
    }
  }

  lemma HeadAccepted(m: seq<byte>, h: nat, end: nat, msg: Msg)
    requires h + msg.Len() <= end <= |m| && end < INT_RANGE && MsgAt(m, h, msg)
    ensures !Rejected(m, h, end - h) && NextMsg(m, h) == h + msg.Size()
  {
  }

  // The scan as a machine, to say when it comes to an end.

  datatype Scan = Scan(h: nat, status: int)

  /** One turn of the loop; a rejected header is a turn that changes nothing. */
  function ScanStep(m: seq<byte>, s: Scan): (s': Scan)
    requires s.h + s.status <= |m|
    ensures s'.h + s'.status == s.h + s.status
  {
    if s.status < NLMSGHDR || Rejected(m, s.h, s.status) then s
    else Scan(NextMsg(m, s.h), s.status - (NextMsg(m, s.h) - s.h))
  }

  function ScanSteps(m: seq<byte>, s: Scan, n: nat): (s': Scan)
    requires s.h + s.status <= |m|
    ensures s'.h + s'.status == s.h + s.status
    decreases n
  {
    if n == 0 then s else ScanSteps(m, ScanStep(m, s), n - 1)
  }

  predicate DoneAfter(m: seq<byte>, h: nat, end: nat, n: nat)
    requires end <= |m|
  {
    ScanSteps(m, Scan(h, end - h), n).status < NLMSGHDR
  }

  /** The monitor gets through a datagram if and only if no header in it is rejected. */
  lemma MonitorEndsIff(m: seq<byte>, h: nat, end: nat)
    requires end <= |m|
    ensures (exists n: nat :: DoneAfter(m, h, end, n)) <==> Accepts(m, h, end)
  {
    if Accepts(m, h, end) {
      var n := TurnsNeeded(m, h, end);
      assert DoneAfter(m, h, end, n);
    }
    forall n: nat | DoneAfter(m, h, end, n)
      ensures Accepts(m, h, end)
    {
      EndsOnlyIfAccepted(m, h, end, n);
    }
  }

  /** From `h` on there are the messages `msgs`, up to `stop`. The padding of the last one
      may be cut off by the end of the data, so that `stop` lies beyond. */
  ghost predicate Chain(m: seq<byte>, h: nat, end: nat, msgs: seq<Msg>, stop: nat)
    requires end <= |m|
    decreases |msgs|
  {
    if msgs == [] then stop == h else
      && h + msgs[0].Len() <= end
      && MsgAt(m, h, msgs[0])
      && Chain(m, h + msgs[0].Size(), end, msgs[1..], stop)
  }

  /** What may follow the messages: less than a header, or a header whose length lies so
      close to the least int that subtracting the size of a header wraps around. */
  predicate EndsScan(m: seq<byte>, stop: nat, end: nat)
    requires end <= |m|
  {
    end - stop < NLMSGHDR || INT_RANGE <= U32(m, stop) < INT_RANGE + NLMSGHDR
  }

  /** The bytes are whole messages, the last one's padding aside, and then less than a
      header. */
  ghost predicate WholeMessages(m: seq<byte>, h: nat, end: nat, msgs: seq<Msg>, stop: nat)
    requires end <= |m|
  {
    Chain(m, h, end, msgs, stop) && EndsScan(m, stop, end)
  }

  /** The same said of the bytes: the monitor gets through if and only if these are whole
      messages. */
  lemma AcceptsIffMessages(m: seq<byte>, h: nat, end: nat)
    requires end <= |m| && end < INT_RANGE
    ensures Accepts(m, h, end) <==> exists msgs, stop :: WholeMessages(m, h, end, msgs, stop)
  {
    if Accepts(m, h, end) {
      var msgs, stop := AcceptedMessages(m, h, end);
    }
    forall msgs, stop | WholeMessages(m, h, end, msgs, stop)
      ensures Accepts(m, h, end)
    {
      MessagesAccepted(m, h, end, msgs, stop);
    }
  }

  /** The test in terms of the length as it is stored. */
  lemma RejectedIff(m: seq<byte>, h: nat, status: nat)
    requires h + NLMSGHDR <= |m| && status < INT_RANGE
    ensures Rejected(m, h, status) <==>
            U32(m, h) < NLMSGHDR || (U32(m, h) > status && !(INT_RANGE <= U32(m, h) < INT_RANGE + NLMSGHDR))
  {
  }

  function MsgFrom(m: seq<byte>, h: nat): (msg: Msg)
    requires h + NLMSGHDR <= |m| && NLMSGHDR <= U32(m, h) <= |m| - h
    ensures msg.Len() == U32(m, h) && MsgAt(m, h, msg)
  {
    Msg(U16(m, h + 4), U16(m, h + 6), U32(m, h + 8), U32(m, h + 12), m[h + NLMSGHDR..h + U32(m, h)])
  }

  lemma {:induction false} AcceptedMessages(m: seq<byte>, h: nat, end: nat) returns (msgs: seq<Msg>, stop: nat)
    requires end <= |m| && end < INT_RANGE && Accepts(m, h, end)
    ensures WholeMessages(m, h, end, msgs, stop)
    decreases if h < end then end - h else 0
  {
    if EndsScan(m, h, end) {
      return [], h;
    }
    RejectedIff(m, h, end - h);
    var msg := MsgFrom(m, h);
    var rest;
    rest, stop := AcceptedMessages(m, NextMsg(m, h), end);
    msgs := [msg] + rest;
    ChainCons(m, h, end, msg, rest, stop);
  }

  lemma ChainCons(m: seq<byte>, h: nat, end: nat, msg: Msg, rest: seq<Msg>, stop: nat)
    requires h + msg.Len() <= end <= |m| && MsgAt(m, h, msg)
    requires Chain(m, h + msg.Size(), end, rest, stop)
    ensures Chain(m, h, end, [msg] + rest, stop)
  {
    assert ([msg] + rest)[0] == msg && ([msg] + rest)[1..] == rest;
  }

  lemma {:induction false} MessagesAccepted(m: seq<byte>, h: nat, end: nat, msgs: seq<Msg>, stop: nat)
    requires end <= |m| && end < INT_RANGE
    requires WholeMessages(m, h, end, msgs, stop)
    ensures Accepts(m, h, end)
    decreases |msgs|
  {
    if end - h >= NLMSGHDR {
      RejectedIff(m, h, end - h);
      if msgs != [] {
        HeadAccepted(m, h, end, msgs[0]);
        MessagesAccepted(m, h + msgs[0].Size(), end, msgs[1..], stop);
      }
    }
  }

  /** A length of zero is enough to keep the monitor turning for ever. */
  lemma ZeroLengthSticks(m: seq<byte>, h: nat, end: nat, n: nat)
    requires h + NLMSGHDR <= end <= |m| && U32(m, h) == 0
    ensures !DoneAfter(m, h, end, n)
  {
    StuckForever(m, Scan(h, end - h), n);
  }

  lemma {:induction false} TurnsNeeded(m: seq<byte>, h: nat, end: nat) returns (n: nat)
    requires end <= |m| && Accepts(m, h, end)
    ensures DoneAfter(m, h, end, n)
    decreases if h < end then end - h else 0
  {
    if end - h < NLMSGHDR {
      n := 0;
    } else {
      AcceptedAdvances(m, h, end - h);
      n := TurnsNeeded(m, NextMsg(m, h), end);
      n := n + 1;
    }
  }

  lemma {:induction false} EndsOnlyIfAccepted(m: seq<byte>, h: nat, end: nat, n: nat)
    requires end <= |m| && DoneAfter(m, h, end, n)
    ensures Accepts(m, h, end)
    decreases n
  {
    if end - h >= NLMSGHDR {
      if Rejected(m, h, end - h) {
        StuckForever(m, Scan(h, end - h), n);
        assert false;
      } else {
        EndsOnlyIfAccepted(m, NextMsg(m, h), end, n - 1);
      }
    }
  }

  lemma {:induction false} StuckForever(m: seq<byte>, s: Scan, n: nat)
    requires s.h + s.status <= |m| && s.status >= NLMSGHDR && Rejected(m, s.h, s.status)
    ensures ScanSteps(m, s, n) == s
    decreases n
  {
    if n > 0 {
      StuckForever(m, s, n - 1);
    }
  }
}
