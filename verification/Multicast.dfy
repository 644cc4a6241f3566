/** The kernel module's loop over cascaded messages (netlink/netlink_multicast.c). */
module Multicast {
  import opened Bytes
  import opened RtAttr
  import opened NlStream

  predicate MultiAt(m: seq<byte>, h: nat)
    requires h + NLMSGHDR <= |m|
  {
    U16(m, h + 6) / 2 % 2 == 1
  }

  /** NLMSG_OK and the flag test of the loop condition. */
  predicate Continues(m: seq<byte>, h: nat, len: int)
    requires h + len <= |m|
  {
    && len >= NLMSGHDR
    && NLMSGHDR <= U32(m, h) <= len
    && (MultiAt(m, h) || U16(m, h + 4) == NLMSG_DONE)
  }

  /** The type of the next header is read before anything says that there is one. Every
      such peek falls below `limit`. */
  predicate PeeksBelow(m: seq<byte>, h: nat, end: nat, limit: nat)
    requires end <= |m| && limit <= |m|
    decreases if h < end then end - h else 0
  {
    Continues(m, h, end - h) ==>
      && NextMsg(m, h) + 6 <= limit
      && (U16(m, NextMsg(m, h) + 4) != NLMSG_DONE ==> PeeksBelow(m, NextMsg(m, h), end, limit))
  }

  /** The headers dumped. */
  function Dumps(m: seq<byte>, h: nat, end: nat): (w: seq<nat>)
    requires end <= |m| && PeeksBelow(m, h, end, |m|)
    ensures forall i :: 0 <= i < |w| ==> w[i] + 16 <= end && 16 <= U32(m, w[i]) <= end - w[i]
    decreases if h < end then end - h else 0
  {
    if !Continues(m, h, end - h) then []
    else if U16(m, NextMsg(m, h) + 4) == NLMSG_DONE then [h]
    else [h] + Dumps(m, NextMsg(m, h), end)
  }

  method ReceiveMulti(m: seq<byte>, skbLen: nat) returns (dumped: seq<nat>)
    requires skbLen <= |m| && PeeksBelow(m, 0, skbLen, |m|)
    ensures dumped == Dumps(m, 0, skbLen)
  {
    dumped := [];
    var nlh, len: int := 0, skbLen;
    assert Dumps(m, 0, skbLen) == [] + Dumps(m, 0, skbLen);
    while Continues(m, nlh, len)
      invariant 0 <= nlh && nlh + len == skbLen
      invariant PeeksBelow(m, nlh, skbLen, |m|)
      invariant Dumps(m, 0, skbLen) == dumped + Dumps(m, nlh, skbLen)
      decreases len
    {
      if U16(m, NextMsg(m, nlh) + 4) != NLMSG_DONE {
        Reassociate(dumped, [nlh], Dumps(m, NextMsg(m, nlh), skbLen));
      }
      dumped := dumped + [nlh];
      var next := NextMsg(m, nlh);
      nlh, len := next, len - (next - nlh);
      if U16(m, nlh + 4) == NLMSG_DONE {
        return;
      }
    }
    assert dumped + [] == dumped;
  }

  /** On any bytes, every peek stays below a limit at or behind the end of the data exactly
      when the one behind the last header dumped does. */
  lemma {:induction false} PeeksBelowIff(m: seq<byte>, h: nat, end: nat, limit: nat)
    requires end <= limit <= |m| && PeeksBelow(m, h, end, |m|)
    ensures var w := Dumps(m, h, end);
            PeeksBelow(m, h, end, limit) <==> w == [] || NextMsg(m, w[|w| - 1]) + 6 <= limit
    decreases if h < end then end - h else 0
  {
    if Continues(m, h, end - h) && U16(m, NextMsg(m, h) + 4) != NLMSG_DONE {
      var w := Dumps(m, NextMsg(m, h), end);
      PeeksBelowIff(m, NextMsg(m, h), end, limit);
      if w != [] {
        assert ([h] + w)[|w|] == w[|w| - 1];
        assert Continues(m, NextMsg(m, h), end - NextMsg(m, h));
      }
    }
  }

  /** On a stream the loop peeks outside it if and only if it dumps its last message. */
  lemma {:induction false} StreamPeeksIff(m: seq<byte>, h: nat, end: nat, limit: nat, msgs: seq<Msg>)
    requires Stream(m, h, end, msgs) && end <= limit <= |m|
    ensures PeeksBelow(m, h, end, limit) <==> msgs == [] || DumpCount(msgs) < |msgs| || end + 6 <= limit
    decreases |msgs|
  {
    if msgs != [] {
      var next := h + msgs[0].Size();
      HeadContinues(m, h, end, msgs[0]);
      StreamPeeksIff(m, next, end, limit, msgs[1..]);
      if |msgs| > 1 {
        assert msgs[1..][0] == msgs[1];
        assert MsgAt(m, next, msgs[1]) && next + msgs[1].Len() <= end;
      }
    }
  }

  /** A single MULTI message, without the DONE that should end the stream, is enough for
      that. */
  lemma LoneMultiPeeksOutside(m: seq<byte>, end: nat, msg: Msg)
    requires Stream(m, 0, end, [msg]) && msg.Multi() && end + 6 <= |m|
    ensures !PeeksBelow(m, 0, end, end)
  {
    StreamPeeksIff(m, 0, end, end, [msg]);
    assert DumpCount([msg][1..]) == 0;
  }

  /** How many messages of a list are dumped: the first if it is MULTI or DONE, and then
      on until a DONE, which is not dumped, or a message without the flag. */
  function DumpCount(msgs: seq<Msg>): (n: nat)
    ensures n <= |msgs|
  {
    if msgs == [] || !(msgs[0].Multi() || msgs[0].Done()) then 0
    else if |msgs| > 1 && msgs[1].Done() then 1
    else 1 + DumpCount(msgs[1..])
  }

  /** On any stream, and whatever the bytes behind it, exactly those are dumped. */
  lemma {:induction false} DumpsStream(m: seq<byte>, h: nat, end: nat, msgs: seq<Msg>)
    requires Stream(m, h, end, msgs) && PeeksBelow(m, h, end, |m|)
    ensures Dumps(m, h, end) == MsgOffsets(h, msgs)[..DumpCount(msgs)]
    decreases |msgs|
  {
    if msgs != [] {
      var next := h + msgs[0].Size();
      HeadContinues(m, h, end, msgs[0]);
      StreamPeeksIff(m, h, end, |m|, msgs);
      if |msgs| > 1 {
        assert msgs[1..][0] == msgs[1];
        assert MsgAt(m, next, msgs[1]);
      }
      if DumpCount(msgs) > 1 {
        DumpsStream(m, next, end, msgs[1..]);
        PrefixCons(h, MsgOffsets(next, msgs[1..]), DumpCount(msgs[1..]));
      }
    }
  }

  lemma PrefixCons(h: nat, w: seq<nat>, n: nat)
    requires n <= |w|
    ensures ([h] + w)[..1 + n] == [h] + w[..n]
    ensures ([h] + w)[..1] == [h]
  {
  }

  lemma HeadContinues(m: seq<byte>, h: nat, end: nat, msg: Msg)
    requires h + msg.Len() <= end <= |m| && MsgAt(m, h, msg)
    ensures Continues(m, h, end - h) <==> msg.Multi() || msg.Done()
    ensures NextMsg(m, h) == h + msg.Size()
  {
  }

  /** One or more MULTI messages followed by a DONE: those are dumped in order, and neither
      the DONE nor anything after it. */
  lemma {:induction false} DoneEndsDump(data: seq<Msg>, done: Msg, rest: seq<Msg>)
    requires data != [] && done.typ == 3
    requires forall i :: 0 <= i < |data| ==> data[i].flags / 2 % 2 == 1 && data[i].typ != 3
    ensures DumpCount(data + [done] + rest) == |data|
    decreases |data|
  {
    var msgs := data + [done] + rest;
    if |data| == 1 {
      assert msgs[1] == done;
    } else {
      assert msgs[1..] == data[1..] + [done] + rest;
      DoneEndsDump(data[1..], done, rest);
    }
  }

  /** MULTI messages followed by one that is neither MULTI nor DONE, or by nothing: those are
      dumped and no more. */
  lemma {:induction false} PlainEndsDump(data: seq<Msg>, rest: seq<Msg>)
    requires forall i :: 0 <= i < |data| ==> data[i].flags / 2 % 2 == 1 && data[i].typ != 3
    requires rest != [] ==> rest[0].flags / 2 % 2 == 0 && rest[0].typ != 3
    ensures DumpCount(data + rest) == |data|
    decreases |data|
  {
    if data == [] {
      assert data + rest == rest;
    } else {
      assert (data + rest)[1..] == data[1..] + rest;
      PlainEndsDump(data[1..], rest);
    }
  }

  /** A DONE (3) at the very front is dumped, and the loop goes on behind it unless another
      DONE follows. */
  lemma DoneInFront(done: Msg, rest: seq<Msg>)
    requires done.typ == 3
    ensures DumpCount([done] + rest) == if rest != [] && rest[0].typ == 3 then 1 else 1 + DumpCount(rest)
  {
    assert ([done] + rest)[1..] == rest;
  }
}
