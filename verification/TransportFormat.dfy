/**
  The binary form of tables that list transport streams (NIT and BAT, sections
  5.2.1 and 5.2.2 of ETSI EN 300 468): what one section payload holds, how it is
  read, and what a whole table holds.
 */
module TransportFormat {
  import opened Octets
  import opened DescriptorLists
  import opened Sections

  datatype TransportId = TransportId(tsid: UInt16, onid: UInt16) {
    // The key by which transports are ordered.
    function Normalized(): int { tsid + 0x10000 * onid }
  }

  // One entry of the transport loop of a section.
  datatype Entry = Entry(id: TransportId, descs: seq<Descriptor>)

  // What a section holds: part of the top-level descriptor list, and its transport loop.
  datatype Content = Content(descs: seq<Descriptor>, entries: seq<Entry>)

  type Transports = map<TransportId, seq<Descriptor>>

  // ----- Binary form -----

  function GetUInt16(b: seq<Byte>, at: nat): (v: int)
    requires at + 2 <= |b|
    ensures 0 <= v < 0x10000
  {
    b[at] as int * 256 + b[at + 1] as int
  }

  function EntryBytes(e: Entry): seq<Byte>
    requires |Bytes(e.descs)| < 0x1000
  {
    Word16(e.id.tsid) + Word16(e.id.onid) + LengthField(|Bytes(e.descs)|) + Bytes(e.descs)
  }

  // The size of the transport loop.
  function LoopSize(es: seq<Entry>): nat {
    if es == [] then 0 else 6 + |Bytes(es[0].descs)| + LoopSize(es[1..])
  }

  function LoopBytes(es: seq<Entry>): (b: seq<Byte>)
    requires LoopSize(es) < 0x1000
    ensures |b| == LoopSize(es)
  {
    if es == [] then [] else EntryBytes(es[0]) + LoopBytes(es[1..])
  }

  function ContentSize(c: Content): nat {
    4 + |Bytes(c.descs)| + LoopSize(c.entries)
  }

  function ContentBytes(c: Content): (b: seq<Byte>)
    requires ContentSize(c) < 0x1000
    ensures |b| == ContentSize(c)
  {
    LengthField(|Bytes(c.descs)|) + Bytes(c.descs) + LengthField(LoopSize(c.entries)) + LoopBytes(c.entries)
  }

  // The bytes of an entry and of a section payload, one by one: identifiers and lengths are
  // on two bytes, most significant byte first, with four bits set before lengths.
  lemma EntryLayout(e: Entry)
    requires |Bytes(e.descs)| < 0x1000
    ensures var b, n := EntryBytes(e), |Bytes(e.descs)|;
            && |b| == 6 + n && b[0] == e.id.tsid / 256 && b[1] == e.id.tsid % 256
            && b[2] == e.id.onid / 256 && b[3] == e.id.onid % 256
            && b[4] == 0xF0 + n / 256 && b[5] == n % 256 && b[6..] == Bytes(e.descs)
  {
    hide Bytes;
  }

  lemma ContentLayout(c: Content)
    requires ContentSize(c) < 0x1000
    ensures var b, n, m := ContentBytes(c), |Bytes(c.descs)|, LoopSize(c.entries);
            && |b| == 4 + n + m && b[0] == 0xF0 + n / 256 && b[1] == n % 256 && b[2..2 + n] == Bytes(c.descs)
            && b[2 + n] == 0xF0 + m / 256 && b[3 + n] == m % 256 && b[4 + n..] == LoopBytes(c.entries)
  {
    hide Bytes, LoopSize, LoopBytes;
  }

  // ----- Reading -----

  function Min(a: nat, b: nat): nat { if a < b then a else b }

  // The transport loop in a memory area, up to the first truncated entry header.
  function ParseLoop(b: seq<Byte>): seq<Entry> {
    if |b| < 6 then []
    else
      var n := Min(GetUInt16(b, 4) % 0x1000, |b| - 6);
      [Entry(TransportId(GetUInt16(b, 0), GetUInt16(b, 2)), ParseDescriptors(b[6..6 + n]))] + ParseLoop(b[6 + n..])
  }

  // What reading a payload gives: the content that was read, and whether it was complete.
  datatype Reading = Reading(complete: bool, content: Content)

  function ParsePayload(b: seq<Byte>): Reading {
    if |b| < 2 then Reading(false, Content([], []))
    else
      var n := Min(GetUInt16(b, 0) % 0x1000, |b| - 2);
      var descs := ParseDescriptors(b[2..2 + n]);
      if |b| - 2 - n < 2 then Reading(false, Content(descs, []))
      else
        var m := Min(GetUInt16(b, 2 + n) % 0x1000, |b| - 4 - n);
        Reading(true, Content(descs, ParseLoop(b[4 + n..4 + n + m])))
  }

  // Add descriptors to a transport, which is created if it does not exist.
  function AddEntry(m: Transports, e: Entry): Transports {
    m[e.id := (if e.id in m then m[e.id] else []) + e.descs]
  }

  function AddEntries(m: Transports, es: seq<Entry>): Transports
    decreases |es|
  {
    if es == [] then m else AddEntries(AddEntry(m, es[0]), es[1..])
  }

  // ----- What tables hold -----

  function AllDescs(cs: seq<Content>): seq<Descriptor> {
    if cs == [] then [] else cs[0].descs + AllDescs(cs[1..])
  }

  function AllEntries(cs: seq<Content>): seq<Entry> {
    if cs == [] then [] else cs[0].entries + AllEntries(cs[1..])
  }

  lemma {:induction false} AllOfConcat(a: seq<Content>, b: seq<Content>)
    ensures AllDescs(a + b) == AllDescs(a) + AllDescs(b)
    ensures AllEntries(a + b) == AllEntries(a) + AllEntries(b)
  {
    if a == [] {
      assert a + b == b;
    } else {
      assert (a + b)[1..] == a[1..] + b;
      AllOfConcat(a[1..], b);
    }
  }

  lemma AllOfOne(c: Content)
    ensures AllDescs([c]) == c.descs && AllEntries([c]) == c.entries
  {
    assert [c][1..] == [];
  }

  lemma {:induction false} AddEntriesOfConcat(m: Transports, a: seq<Entry>, b: seq<Entry>)
    ensures AddEntries(m, a + b) == AddEntries(AddEntries(m, a), b)
    decreases |a|
  {
    if a == [] {
      assert a + b == b;
    } else {
      assert (a + b)[1..] == a[1..] + b;
      AddEntriesOfConcat(AddEntry(m, a[0]), a[1..], b);
    }
  }

  lemma {:induction false} LoopOfConcat(a: seq<Entry>, b: seq<Entry>)
    ensures LoopSize(a + b) == LoopSize(a) + LoopSize(b)
    ensures LoopSize(a + b) < 0x1000 ==> LoopBytes(a + b) == LoopBytes(a) + LoopBytes(b)
  {
    if a == [] {
      assert a + b == b;
    } else {
      assert (a + b)[1..] == a[1..] + b;
      LoopOfConcat(a[1..], b);
    }
  }

  lemma LoopOfOne(e: Entry)
    ensures LoopSize([e]) == 6 + |Bytes(e.descs)|
    ensures LoopSize([e]) < 0x1000 ==> LoopBytes([e]) == EntryBytes(e)
  {
    assert [e][1..] == [];
  }

  // ----- Reading undoes writing -----

  lemma ReadWord16(b: seq<Byte>, at: nat, v: int)
    requires at + 2 <= |b| && 0 <= v < 0x10000 && b[at..at + 2] == Word16(v)
    ensures GetUInt16(b, at) == v
  {
    assert b[at] == b[at..at + 2][0] && b[at + 1] == b[at..at + 2][1];
  }

  // The parts of five areas put together.
  lemma FiveParts(w0: seq<Byte>, w1: seq<Byte>, w2: seq<Byte>, d: seq<Byte>, rest: seq<Byte>)
    requires |w0| == |w1| == |w2| == 2
    ensures var b := (w0 + w1 + w2 + d) + rest;
            b[0..2] == w0 && b[2..4] == w1 && b[4..6] == w2 && b[6..6 + |d|] == d && b[6 + |d|..] == rest
  {
  }

  lemma ReadEntry(e: Entry, rest: seq<Byte>)
    requires |Bytes(e.descs)| < 0x1000
    ensures ParseLoop(EntryBytes(e) + rest) == [e] + ParseLoop(rest)
  {
    hide Word16, GetUInt16, Bytes, ParseDescriptors;
    var d := Bytes(e.descs);
    var b := EntryBytes(e) + rest;
    FiveParts(Word16(e.id.tsid), Word16(e.id.onid), LengthField(|d|), d, rest);
    ReadWord16(b, 0, e.id.tsid);
    ReadWord16(b, 2, e.id.onid);
    ReadWord16(b, 4, 0xF000 + |d|);
    ParseBytes(e.descs);
  }

  lemma {:induction false} ParseLoopBytes(es: seq<Entry>)
    requires LoopSize(es) < 0x1000
    ensures ParseLoop(LoopBytes(es)) == es
  {
    hide ParseLoop, EntryBytes;
    if es == [] {
      ParseNothing();
    } else {
      ReadEntry(es[0], LoopBytes(es[1..]));
      ParseLoopBytes(es[1..]);
    }
  }

  lemma ParseNothing()
    ensures ParseLoop([]) == []
  {
  }

  // A complete section payload gives back exactly its content.
  lemma ParseContentBytes(c: Content)
    requires ContentSize(c) < 0x1000
    ensures ParsePayload(ContentBytes(c)) == Reading(true, c)
  {
    hide Word16, GetUInt16, Bytes, ParseDescriptors, LoopSize, LoopBytes, ParseLoop;
    var d, l := Bytes(c.descs), LoopBytes(c.entries);
    var b := ContentBytes(c);
    FourParts(LengthField(|d|), d, LengthField(|l|), l);
    ReadWord16(b, 0, 0xF000 + |d|);
    ReadWord16(b, 2 + |d|, 0xF000 + |l|);
    ParseBytes(c.descs);
    ParseLoopBytes(c.entries);
  }

  lemma FourParts(w0: seq<Byte>, d: seq<Byte>, w1: seq<Byte>, l: seq<Byte>)
    requires |w0| == |w1| == 2
    ensures var b := w0 + d + w1 + l;
            b[0..2] == w0 && b[2..2 + |d|] == d && b[2 + |d|..4 + |d|] == w1 && b[4 + |d|..4 + |d| + |l|] == l
  {
  }

  // ----- Sections and tables -----

  // The object: validity, table id, common properties, top-level list and transports.
  datatype Table = Table(valid: bool, tableId: Byte, tidExt: UInt16, version: Byte, isCurrent: bool,
                         descs: seq<Descriptor>, transports: Transports)

  // What reading one section adds to a table object.
  function AfterSection(t: Table, s: Section): Table {
    var content := ParsePayload(s.payload).content;
    t.(version := s.version, isCurrent := s.isCurrent, tidExt := s.tidExt,
       descs := t.descs + content.descs, transports := AddEntries(t.transports, content.entries))
  }

  // What reading sections one after the other makes of a table object.
  function ReadSections(t: Table, sections: seq<Section>): Table
    decreases |sections|
  {
    if sections == [] then t.(valid := true)
    else if sections[0].tableId != t.tableId then t
    else if ParsePayload(sections[0].payload).complete then ReadSections(AfterSection(t, sections[0]), sections[1..])
    else AfterSection(t, sections[0])
  }

  // The sections of a serialized table, with numbers modulo 256.
  function TableSections(t: Table, cs: seq<Content>): seq<Section>
    requires forall c :: c in cs ==> ContentSize(c) <= PAYLOAD_SIZE
    decreases |cs|
  {
    if cs == [] then []
    else
      var n := |cs| - 1;
      PutSection(TableSections(t, cs[..n]), SectionOf(t, cs[n], n))
  }

  function SectionOf(t: Table, c: Content, n: nat): Section
    requires ContentSize(c) <= PAYLOAD_SIZE
  {
    Section(t.tableId, t.tidExt, t.version, t.isCurrent, n % 256, ContentBytes(c))
  }

  // Up to 256 sections, none replaces another one.
  lemma {:induction false} NoSectionReplaced(t: Table, cs: seq<Content>)
    requires forall c :: c in cs ==> ContentSize(c) <= PAYLOAD_SIZE
    requires |cs| <= 256 && t.version <= MAX_VERSION
    ensures |TableSections(t, cs)| == |cs|
    ensures forall i :: 0 <= i < |cs| ==> TableSections(t, cs)[i] == SectionOf(t, cs[i], i)
  {
    hide ContentBytes;
    if cs != [] {
      NoSectionReplaced(t, cs[..|cs| - 1]);
    }
  }

  // Beyond 256, there are never more than 256 sections left. With an impossible
  // version, there is none.
  lemma {:induction false} AtMost256Sections(t: Table, cs: seq<Content>)
    requires forall c :: c in cs ==> ContentSize(c) <= PAYLOAD_SIZE
    ensures |TableSections(t, cs)| == if t.version <= MAX_VERSION then Min(|cs|, 256) else 0
  {
    hide ContentBytes;
    if cs != [] {
      AtMost256Sections(t, cs[..|cs| - 1]);
    }
  }

  // Reading sections gives all their descriptors and the sum of their transport loops.
  lemma {:induction false} ReadAllSections(t: Table, t0: Table, cs: seq<Content>, sections: seq<Section>, from: nat)
    requires from <= |cs| == |sections| && t0.tableId == t.tableId
    requires forall c :: c in cs ==> ContentSize(c) <= PAYLOAD_SIZE
    requires forall i :: 0 <= i < |cs| ==> sections[i] == SectionOf(t, cs[i], i)
    requires from > 0 ==> t0.tidExt == t.tidExt && t0.version == t.version && t0.isCurrent == t.isCurrent
    requires cs != []
    ensures ReadSections(t0, sections[from..])
         == Table(true, t.tableId, t.tidExt, t.version, t.isCurrent,
                  t0.descs + AllDescs(cs[from..]), AddEntries(t0.transports, AllEntries(cs[from..])))
    decreases |cs| - from
  {
    hide ContentBytes, ParsePayload;
    if from < |cs| {
      var c := cs[from];
      ParseContentBytes(c);
      var t1 := Table(t0.valid, t.tableId, t.tidExt, t.version, t.isCurrent,
                      t0.descs + c.descs, AddEntries(t0.transports, c.entries));
      ReadAllSections(t, t1, cs, sections, from + 1);
      assert sections[from..][1..] == sections[from + 1..] && cs[from..][1..] == cs[from + 1..];
      AddEntriesOfConcat(t0.transports, c.entries, AllEntries(cs[from + 1..]));
    }
  }
}
