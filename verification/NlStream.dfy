/** Buffers of concatenated netlink messages. */
module NlStream {
  import opened Bytes
  import opened RtAttr

  const NLMSG_DONE := 3

  datatype Msg = Msg(typ: nat, flags: nat, seqNo: nat, pid: nat, payload: seq<byte>) {

    /** nlmsg_len: header and payload, padding excluded. */
    function Len(): nat { NLMSGHDR + |payload| }

    function Size(): (n: nat)
      ensures Len() <= n < Len() + 4
    {
      AlignUp(Len())
    }

    /** NLM_F_MULTI is 2. */
    predicate Multi() { flags / 2 % 2 == 1 }

    predicate Done() { typ == NLMSG_DONE }
  }

  ghost predicate MsgAt(m: seq<byte>, off: nat, msg: Msg)
    requires off + msg.Len() <= |m|
  {
    && U32(m, off) == msg.Len()
    && U16(m, off + 4) == msg.typ
    && U16(m, off + 6) == msg.flags
    && U32(m, off + 8) == msg.seqNo
    && U32(m, off + 12) == msg.pid
    && m[off + NLMSGHDR..off + msg.Len()] == msg.payload
  }

  /** The bytes from `off` to `end` are the messages `msgs`, each padded to the alignment
      with bytes of any value. */
  ghost predicate Stream(m: seq<byte>, off: nat, end: nat, msgs: seq<Msg>)
    decreases |msgs|
  {
    && off <= end <= |m|
    && if msgs == [] then off == end else
       && off + msgs[0].Size() <= end
       && MsgAt(m, off, msgs[0])
       && Stream(m, off + msgs[0].Size(), end, msgs[1..])
  }

  function MsgOffsets(off: nat, msgs: seq<Msg>): (w: seq<nat>)
    ensures |w| == |msgs|
    decreases |msgs|
  {
    if msgs == [] then [] else [off] + MsgOffsets(off + msgs[0].Size(), msgs[1..])
  }

  function NextMsg(m: seq<byte>, h: nat): (n: nat)
    requires h + NLMSGHDR <= |m|
    ensures h + U32(m, h) <= n < h + U32(m, h) + 4
  {
    h + AlignUp(U32(m, h))
  }

  lemma StreamInside(m: seq<byte>, p: nat, last: nat, msgs: seq<Msg>)
    requires Stream(m, p, last, msgs)
    ensures p <= last <= |m|
  {
  }

  /** A message length below 64 KiB, read as an attribute header. */
  lemma LengthAsAttr(m: seq<byte>, h: nat, len: nat)
    requires h + 4 <= |m| && U32(m, h) == len < U16_RANGE
    ensures U16(m, h) == len && U16(m, h + 2) == 0
  {
  }

  /** The bytes of a message: length and type, flags, sequence number and port, payload. */
  function MsgBytes(msg: Msg): (bs: seq<byte>)
    ensures |bs| == msg.Len()
  {
    Le32(msg.Len()) + (Le16(msg.typ) + Le16(msg.flags)) + (Le32(msg.seqNo) + Le32(msg.pid)) + msg.payload
  }

  /** These bytes are read as the message, if its numbers fit their fields. */
  lemma MsgBytesRead(m: seq<byte>, off: nat, msg: Msg)
    requires off + msg.Len() <= |m| && m[off..off + msg.Len()] == MsgBytes(msg)
    requires msg.typ < U16_RANGE && msg.flags < U16_RANGE
    requires msg.Len() < U32_RANGE && msg.seqNo < U32_RANGE && msg.pid < U32_RANGE
    ensures MsgAt(m, off, msg)
  {
    MsgLenRead(m, off, msg);
    MsgKindRead(m, off, msg);
    MsgIdsRead(m, off, msg);
    MsgFields(m, off, msg);
  }

  lemma MsgLenRead(m: seq<byte>, off: nat, msg: Msg)
    requires off + msg.Len() <= |m| && m[off..off + msg.Len()] == MsgBytes(msg)
    requires msg.Len() < U32_RANGE
    ensures U32(m, off) == msg.Len()
  {
    MsgFields(m, off, msg);
    LoadStored32(m, off, msg.Len());
  }

  lemma MsgKindRead(m: seq<byte>, off: nat, msg: Msg)
    requires off + msg.Len() <= |m| && m[off..off + msg.Len()] == MsgBytes(msg)
    requires msg.typ < U16_RANGE && msg.flags < U16_RANGE
    ensures U16(m, off + 4) == msg.typ && U16(m, off + 6) == msg.flags
  {
    MsgFields(m, off, msg);
    LoadStored16(m, off + 4, msg.typ);
    LoadStored16(m, off + 6, msg.flags);
  }

  lemma MsgIdsRead(m: seq<byte>, off: nat, msg: Msg)
    requires off + msg.Len() <= |m| && m[off..off + msg.Len()] == MsgBytes(msg)
    requires msg.seqNo < U32_RANGE && msg.pid < U32_RANGE
    ensures U32(m, off + 8) == msg.seqNo && U32(m, off + 12) == msg.pid
  {
    MsgFields(m, off, msg);
    LoadStored32(m, off + 8, msg.seqNo);
    LoadStored32(m, off + 12, msg.pid);
  }

  lemma MsgFields(m: seq<byte>, off: nat, msg: Msg)
    requires off + msg.Len() <= |m| && m[off..off + msg.Len()] == MsgBytes(msg)
    ensures m[off..off + 4] == Le32(msg.Len())
    ensures m[off + 4..off + 6] == Le16(msg.typ) && m[off + 6..off + 8] == Le16(msg.flags)
    ensures m[off + 8..off + 12] == Le32(msg.seqNo) && m[off + 12..off + 16] == Le32(msg.pid)
    ensures m[off + 16..off + msg.Len()] == msg.payload
  {
    var kind, ids := Le16(msg.typ) + Le16(msg.flags), Le32(msg.seqNo) + Le32(msg.pid);
    var head := Le32(msg.Len()) + kind;
    RecordParts(m, off, head, ids, msg.payload);
    TwoParts(m, off, Le32(msg.Len()), kind);
    TwoParts(m, off + 4, Le16(msg.typ), Le16(msg.flags));
    TwoParts(m, off + 8, Le32(msg.seqNo), Le32(msg.pid));
  }

  lemma TwoParts<T>(m: seq<T>, at: nat, a: seq<T>, b: seq<T>)
    requires at + |a| + |b| <= |m| && m[at..at + |a| + |b|] == a + b
    ensures m[at..at + |a|] == a && m[at + |a|..at + |a| + |b|] == b
  {
    assert a + b == a + b + [];
    RecordParts(m, at, a, b, []);
  }
}
