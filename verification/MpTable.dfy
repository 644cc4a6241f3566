/** The MP configuration table (smpinfo/smpinfo.c): the scan for the floating pointer
    structure and the walk over the entries of the base table, whose sizes depend on
    their types (Intel MultiProcessor Specification 1.4, sections 4.1 to 4.3). */
module MpTable {
  import opened Bytes

  const ENODEV := 19
  const BIOS := 0xF0000
  const BIOS_END := 0x100000
  const FLOATING_POINTER := 16
  const HEADER := 44

  const SIGNATURE: seq<byte> := [95, 77, 80, 95]   // "_MP_"

  predicate SignatureAt(mem: seq<byte>, at: nat)
    requires at + 4 <= |mem|
  {
    mem[at..at + 4] == SIGNATURE
  }

  /** The table that the floating pointer structure at `at` refers to. */
  function TableAt(mem: seq<byte>, at: nat): nat
    requires at + 8 <= |mem|
  {
    U32(mem, at + 4)
  }

  /** A paragraph of the BIOS area below `end`. */
  predicate InBios(a: nat, end: nat) { 0xF0000 <= a < end && end <= 0x100000 && a % 16 == 0 }

  ghost predicate NoneBelow(mem: seq<byte>, end: nat) {
    |mem| >= 0x100000 && forall a :: InBios(a, end) ==> !SignatureAt(mem, a)
  }

  lemma NoneBelowNext(mem: seq<byte>, at: nat)
    requires NoneBelow(mem, at) && InBios(at, 0x100000) && !SignatureAt(mem, at)
    ensures NoneBelow(mem, at + 16)
  {
    forall a: nat | InBios(a, at + 16)
      ensures !SignatureAt(mem, a)
    {
      assert a < at ==> InBios(a, at);
    }
  }

  /** The first paragraph of the BIOS area that starts with the signature. */
  ghost predicate IsPointer(mem: seq<byte>, mpfp: nat) {
    && InBios(mpfp, 0x100000) && NoneBelow(mem, mpfp)
    && mem[mpfp..mpfp + 4] == [0x5F, 0x4D, 0x50, 0x5F]
  }

  /** The table's address is the word at offset 4 of the floating pointer structure, and the
      length of its base part the half word at offset 4 of the table, byte by byte. */
  ghost predicate IsTable(mem: seq<byte>, mpfp: nat, mpct: nat, baselen: nat) {
    && mpfp + 8 <= |mem| && mpct + 8 <= |mem|
    && mpct == mem[mpfp + 4] as int + 0x100 * mem[mpfp + 5] as int
               + 0x1_0000 * mem[mpfp + 6] as int + 0x100_0000 * mem[mpfp + 7] as int
    && baselen == mem[mpct + 4] as int + 0x100 * mem[mpct + 5] as int
  }

  // ----- Entries -----

  /** Type 0 entries, which describe processors, take 20 bytes, all others 8. */
  function EntrySize(typ: byte): nat { if typ != 0 then 8 else 20 }

  predicate IsEntry(e: seq<byte>) { |e| > 0 && |e| == EntrySize(e[0]) }

  function Flatten(entries: seq<seq<byte>>): seq<byte> {
    if entries == [] then [] else entries[0] + Flatten(entries[1..])
  }

  /** The entries that the walk from offset `i` shows. The size of an entry is not checked
      against the end, so the table must be readable for 20 bytes more. */
  function Rows(t: seq<byte>, i: nat, end: nat): (rows: seq<seq<byte>>)
    requires end + 20 <= |t|
    ensures forall r :: r in rows ==> IsEntry(r)
    decreases if i < end then end - i else 0
  {
    if i >= end then [] else
      var k := EntrySize(t[i]);
      [t[i..i + k]] + Rows(t, i + k, end)
  }

  /** The offset at which the walk stops, less than one entry beyond the end. */
  function StopsAt(t: seq<byte>, i: nat, end: nat): (s: nat)
    requires end + 20 <= |t|
    ensures s >= i && s >= end && (i <= end ==> s < end + 20)
    decreases if i < end then end - i else 0
  {
    if i >= end then i else StopsAt(t, i + EntrySize(t[i]), end)
  }

  /** The walk shows the table from `i` to where it stops, without gap or overlap. */
  lemma {:induction false} RowsTile(t: seq<byte>, i: nat, end: nat)
    requires end + 20 <= |t| && i <= end
    ensures StopsAt(t, i, end) <= |t| && Flatten(Rows(t, i, end)) == t[i..StopsAt(t, i, end)]
    decreases if i < end then end - i else 0
  {
    if i < end {
      var k := EntrySize(t[i]);
      if i + k <= end {
        RowsTile(t, i + k, end);
      } else {
        assert Rows(t, i + k, end) == [];
        assert t[i + k..i + k] == [];
      }
      FlattenCons(t[i..i + k], Rows(t, i + k, end));
      JoinSlices(t, i, i + k, StopsAt(t, i, end));
    } else {
      assert t[i..i] == [];
    }
  }

  lemma FlattenCons(e: seq<byte>, rest: seq<seq<byte>>)
    ensures Flatten([e] + rest) == e + Flatten(rest)
  {
    assert ([e] + rest)[1..] == rest;
  }

  /** A table made of whole entries is split at exactly their boundaries, and the walk ends
      at its length. */
  lemma {:induction false} RowsOfEntries(t: seq<byte>, i: nat, end: nat, entries: seq<seq<byte>>)
    requires i <= end && end + 20 <= |t| && t[i..end] == Flatten(entries)
    requires forall e :: e in entries ==> IsEntry(e)
    ensures Rows(t, i, end) == entries && StopsAt(t, i, end) == end
    decreases |entries|
  {
    if entries == [] {
      assert |t[i..end]| == 0;
    } else {
      var e, rest := entries[0], Flatten(entries[1..]);
      assert t[i..end] == e + rest;
      HeadEntry(t, i, end, e, rest);
      RowsOfEntries(t, i + |e|, end, entries[1..]);
      assert entries == [e] + entries[1..];
    }
  }

  lemma HeadEntry(t: seq<byte>, i: nat, end: nat, e: seq<byte>, rest: seq<byte>)
    requires i <= end <= |t| && t[i..end] == e + rest && IsEntry(e)
    ensures i + |e| <= end && t[i] == e[0]
    ensures t[i..i + |e|] == e && t[i + |e|..end] == rest
  {
    assert |e + rest| == end - i;
    assert t[i..end][0] == e[0];
    SubSlice(t, i, end, 0, |e|);
    SubSlice(t, i, end, |e|, end - i);
    assert (e + rest)[..|e|] == e && (e + rest)[|e|..] == rest;
  }

  /** For any bytes: the walk ends at the table's length if and only if the table is made of
      whole entries, one after the other. */
  lemma EndsExactlyIff(t: seq<byte>, i: nat, end: nat)
    requires i <= end && end + 20 <= |t|
    ensures StopsAt(t, i, end) == end <==> exists entries :: MadeOf(t[i..end], entries)
  {
    if StopsAt(t, i, end) == end {
      RowsTile(t, i, end);
      assert MadeOf(t[i..end], Rows(t, i, end));
    }
    forall entries | MadeOf(t[i..end], entries)
      ensures StopsAt(t, i, end) == end
    {
      RowsOfEntries(t, i, end, entries);
    }
  }

  ghost predicate MadeOf(bs: seq<byte>, entries: seq<seq<byte>>) {
    bs == Flatten(entries) && forall e :: e in entries ==> IsEntry(e)
  }

  // ----- Entries as data -----

  /** A processor entry has type 0 and 19 bytes more, any other entry 7 bytes more. */
  datatype Entry = Processor(body: seq<byte>) | Other(typ: byte, body: seq<byte>)

  predicate IsMpEntry(e: Entry) {
    match e
    case Processor(body) => |body| == 19
    case Other(typ, body) => typ != 0 && |body| == 7
  }

  function Encode(e: Entry): seq<byte> {
    match e
    case Processor(body) => [0] + body
    case Other(typ, body) => [typ] + body
  }

  /** The encodings, one by one. */
  function Encodings(es: seq<Entry>): (rows: seq<seq<byte>>)
    ensures |rows| == |es| && forall i :: 0 <= i < |es| ==> rows[i] == Encode(es[i])
  {
    if es == [] then [] else [Encode(es[0])] + Encodings(es[1..])
  }

  /** A table encoded entry by entry is shown entry by entry, and the walk ends at its end. */
  lemma EncodedShown(t: seq<byte>, i: nat, end: nat, es: seq<Entry>)
    requires i <= end && end + 20 <= |t| && t[i..end] == Flatten(Encodings(es))
    requires forall e :: e in es ==> IsMpEntry(e)
    ensures Rows(t, i, end) == Encodings(es) && StopsAt(t, i, end) == end
  {
    forall row | row in Encodings(es)
      ensures IsEntry(row)
    {
      var k :| 0 <= k < |es| && Encodings(es)[k] == row;
      assert es[k] in es;
    }
    RowsOfEntries(t, i, end, Encodings(es));
  }

  lemma AllEncodedShown(t: seq<byte>, end: nat)
    requires end + 20 <= |t|
    ensures forall es: seq<Entry> ::
              end >= 44 && t[44..end] == Flatten(Encodings(es)) && (forall e :: e in es ==> IsMpEntry(e)) ==>
                Rows(t, 44, end) == Encodings(es)
  {
    forall es: seq<Entry> |
      end >= 44 && t[44..end] == Flatten(Encodings(es)) && (forall e :: e in es ==> IsMpEntry(e))
      ensures Rows(t, 44, end) == Encodings(es)
    {
      EncodedShown(t, 44, end, es);
    }
  }

  // ----- The module -----

  datatype Listing = Listing(floatingPointer: seq<byte>, header: seq<byte>, entries: seq<seq<byte>>)

  /** The rows shown when the walk stands at `i`. */
  ghost predicate Shown(t: seq<byte>, i: nat, end: nat, entries: seq<seq<byte>>)
    requires end + 20 <= |t|
  {
    Rows(t, HEADER, end) == entries + Rows(t, i, end)
  }

  lemma ShowOne(t: seq<byte>, i: nat, end: nat, entries: seq<seq<byte>>)
    requires i < end && end + 20 <= |t| && Shown(t, i, end, entries)
    ensures var k := EntrySize(t[i]); Shown(t, i + k, end, entries + [t[i..i + k]])
  {
    var k := EntrySize(t[i]);
    var rest := Rows(t, i + k, end);
    assert entries + ([t[i..i + k]] + rest) == entries + [t[i..i + k]] + rest;
  }

  class SmpInfo {
    const mem: seq<byte>      // physical memory
    var mpfp: nat             // MP floating pointer structure
    var mpct: nat             // MP configuration table
    var baselen: nat          // length of the base table, an unsigned short

    constructor (mem: seq<byte>)
      ensures this.mem == mem
    {
      this.mem := mem;
      mpfp, mpct, baselen := 0, 0, 0;
    }

    /** my_proc_init: the first paragraph of the BIOS area with the signature is taken. */
    method Init() returns (rc: int)
      requires BIOS_END <= |mem|
      requires forall a :: IsPointer(mem, a) ==> TableAt(mem, a) + 8 <= |mem|
      modifies this
      ensures rc == 0 || rc == -19
      ensures rc == -19 <==> NoneBelow(mem, 0x100000)
      ensures rc == 0 ==> IsPointer(mem, mpfp) && IsTable(mem, mpfp, mpct, baselen)
    {
      var where := Scan();
      if where == BIOS_END {
        return -ENODEV;
      }
      mpct := TableAt(mem, mpfp);
      baselen := U32(mem, mpct + 4) % U16_RANGE;
      LowHalf(mem, mpct + 4);
      return 0;
    }

    /** The loop over the paragraphs of the BIOS area. */
    method Scan() returns (where: nat)
      requires BIOS_END <= |mem|
      modifies `mpfp
      ensures if where == BIOS_END then NoneBelow(mem, 0x100000) else mpfp == where && IsPointer(mem, mpfp)
    {
      where := BIOS;
      while where < BIOS_END
        invariant BIOS <= where <= BIOS_END && where % FLOATING_POINTER == 0
        invariant NoneBelow(mem, where)
      {
        mpfp := where;
        if SignatureAt(mem, mpfp) {
          return;
        }
        NoneBelowNext(mem, where);
        where := where + FLOATING_POINTER;
      }
    }

    /** my_proc_show. */
    method Show() returns (l: Listing)
      requires mpfp + FLOATING_POINTER <= |mem| && mpct + HEADER <= |mem| && mpct + baselen + 20 <= |mem|
      ensures l.floatingPointer == mem[mpfp..mpfp + 16]
      ensures l.header == mem[mpct..mpct + 44]
      ensures forall es: seq<Entry> ::
                baselen >= 44 && mem[mpct + 44..mpct + baselen] == Flatten(Encodings(es)) &&
                (forall e :: e in es ==> IsMpEntry(e)) ==>
                  l.entries == Encodings(es)
      ensures l.entries == Rows(mem[mpct..], HEADER, baselen)
    {
      var t := mem[mpct..];
      var entries := [];
      var i := HEADER;
      while i < baselen
        invariant i >= HEADER
        invariant Shown(t, i, baselen, entries)
        decreases baselen - i
      {
        var k := if t[i] != 0 then 8 else 20;
        ShowOne(t, i, baselen, entries);
        entries := entries + [t[i..i + k]];
        i := i + k;
      }
      assert entries + [] == entries;
      AllEncodedShown(t, baselen);
      assert baselen >= HEADER ==> t[HEADER..baselen] == mem[mpct + HEADER..mpct + baselen];
      return Listing(mem[mpfp..mpfp + FLOATING_POINTER], mem[mpct..mpct + HEADER], entries);
    }
  }

  /** The length is stored as an int in an unsigned short: bytes 6 and 7 of the table, the
      revision and the checksum, drop out. */
  lemma LowHalf(m: seq<byte>, at: nat)
    requires at + 4 <= |m|
    ensures U32(m, at) % U16_RANGE == U16(m, at)
  {
  }
}
