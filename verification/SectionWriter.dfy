/**
  The section under construction during the serialization of a table that lists
  transport streams: the payload buffer, its write position and the sections
  already added to the table (tsAbstractTransportListTable.cpp).
 */
module SectionWriter {
  import opened Octets
  import opened DescriptorLists
  import opened Sections
  import opened TransportFormat

  // What is written of a section while the length of its transport loop is not known.
  function OpenBytes(c: Content): seq<Byte>
    requires ContentSize(c) < 0x1000
  {
    LengthField(|Bytes(c.descs)|) + Bytes(c.descs) + LengthField(0) + LoopBytes(c.entries)
  }

  class Writer {
    const table: Table              // the table to serialize
    const payload: array<Byte>      // payload of the current section
    var data: nat                   // write position in the payload
    var remain: nat                 // room left in the payload
    var tsll: nat                   // position of transport_stream_loop_length
    var sectionNumber: nat
    var sections: seq<Section>      // sections added so far
    ghost var closed: seq<Content>  // what was put in each added section
    ghost var cur: Content          // what was put in the current section

    ghost predicate Valid()
      reads this
    {
      && payload.Length == PAYLOAD_SIZE && data + remain == PAYLOAD_SIZE
      && sectionNumber == |closed|
      && (forall c :: c in closed ==> ContentSize(c) <= PAYLOAD_SIZE)
      && sections == TableSections(table, closed)
    }

    // Nothing is written in the current section.
    ghost predicate AtStart()
      reads this
    {
      Valid() && data == 0 && cur == Content([], [])
    }

    // Descriptors of the top-level list are written, and nothing else.
    ghost predicate AfterDescs()
      reads this, payload
    {
      && Valid() && data == 2 + |Bytes(cur.descs)| && remain >= 2 && cur.entries == []
      && payload[..data] == LengthField(|Bytes(cur.descs)|) + Bytes(cur.descs)
    }

    // Some entries of the transport loop are written after the descriptors;
    // the length of the loop is not known yet.
    ghost predicate InLoop()
      reads this, payload
    {
      && Valid() && tsll == 2 + |Bytes(cur.descs)| && data == ContentSize(cur)
      && payload[..data] == OpenBytes(cur)
    }

    constructor (t: Table)
      ensures AtStart() && table == t && closed == [] && fresh(payload)
    {
      table := t;
      payload := new Byte[PAYLOAD_SIZE];
      data, remain, tsll := 0, PAYLOAD_SIZE, 0;
      sectionNumber, sections := 0, [];
      closed, cur := [], Content([], []);
    }

    // First method addSection: add the payload as a section, start a new one.
    method AddSection()
      requires Valid() && data == ContentSize(cur) && payload[..data] == ContentBytes(cur)
      modifies this
      ensures AtStart() && closed == old(closed) + [old(cur)]
    {
      hide ContentBytes, ContentSize;
      AddOneSection(table, closed, cur);
      sections := PutSection(sections, Section(table.tableId, table.tidExt, table.version, table.isCurrent,
                                               sectionNumber % 256, payload[..data]));
      remain := remain + data;
      data := 0;
      sectionNumber := sectionNumber + 1;
      closed := closed + [cur];
      cur := Content([], []);
    }

    // Serialize descriptors of the top-level list, keeping two bytes for the
    // length of the transport loop.
    method PutDescs(list: seq<Descriptor>, start: nat) returns (next: nat)
      requires AtStart() && start <= |list|
      modifies this, payload
      ensures AfterDescs() && closed == old(closed)
      ensures next == start + FitCount(list[start..], PAYLOAD_SIZE - 4) <= |list|
      ensures cur == Content(list[start..next], [])
    {
      remain := remain - 2;
      next, data, remain := LengthSerialize(list, payload, data, remain, start);
      remain := remain + 2;
      cur := Content(list[start..next], []);
    }

    // Close a section that holds descriptors of the top-level list only.
    method CloseDescsSection()
      requires AfterDescs()
      modifies this, payload
      ensures AtStart() && closed == old(closed) + [old(cur)]
    {
      ghost var before := payload[..data];
      PutUInt16(payload, data, 0xF000);
      assert payload[..data + 2] == before + LengthField(0);
      data := data + 2;
      remain := remain - 2;
      AddSection();
    }

    // Reserve the length of the transport loop.
    method OpenLoop()
      requires AfterDescs()
      modifies this, payload
      ensures InLoop() && closed == old(closed) && cur == old(cur)
      ensures data == tsll + 2
    {
      ghost var before := payload[..data];
      tsll := data;
      PutUInt16(payload, data, 0xF000);
      assert payload[..data + 2] == before + LengthField(0);
      data := data + 2;
      remain := remain - 2;
    }

    // Update transport_stream_loop_length in the current section.
    method PatchLoopLength()
      requires InLoop()
      modifies payload
      ensures data == ContentSize(cur) && payload[..data] == ContentBytes(cur)
    {
      hide ContentBytes, ContentSize, LoopBytes, LengthField, Bytes, TableSections;
      ghost var before := payload[..];
      LoopFollowsDescs(cur);
      PutUInt16(payload, tsll, 0xF000 + (data - tsll - 2));
      Patched(before, payload[..], tsll, data, Word16(0xF000 + (data - tsll - 2)));
      PatchedLength(cur, before[..data]);
    }

    // A zero-length descriptor list and an empty transport loop.
    method StartLoop()
      requires AtStart()
      modifies this, payload
      ensures InLoop() && closed == old(closed) && cur == Content([], [])
      ensures data == tsll + 2 && remain == PAYLOAD_SIZE - 4
    {
      PutUInt16(payload, data, 0xF000);
      tsll := data + 2;
      PutUInt16(payload, data + 2, 0xF000);
      data := data + 4;
      remain := remain - 4;
      assert payload[..data] == LengthField(0) + LengthField(0);
    }

    // Second method addSection: the same as the first one, inside the transport loop.
    method AddSectionInLoop()
      requires InLoop()
      modifies this, payload
      ensures InLoop() && closed == old(closed) + [old(cur)] && cur == Content([], [])
      ensures data == tsll + 2 && remain == PAYLOAD_SIZE - 4
    {
      hide ContentBytes, ContentSize, LengthField, LoopBytes;
      PatchLoopLength();
      AddSection();
      StartLoop();
    }

    // Write the characteristics of a transport.
    method PutTransportId(id: TransportId)
      requires payload.Length == PAYLOAD_SIZE && data + remain == PAYLOAD_SIZE && remain >= 4
      modifies this`data, this`remain, payload
      ensures data == old(data) + 4 && data + remain == PAYLOAD_SIZE
      ensures payload[..data] == old(payload[..data]) + Word16(id.tsid) + Word16(id.onid)
    {
      ghost var before := payload[..data];
      PutUInt16(payload, data, id.tsid);
      assert payload[..data + 2] == before + Word16(id.tsid);
      PutUInt16(payload, data + 2, id.onid);
      data := data + 4;
      remain := remain - 4;
      assert payload[..data] == before + Word16(id.tsid) + Word16(id.onid);
    }

    // Write the characteristics of a transport and as many of its descriptors as possible.
    method PutEntry(id: TransportId, list: seq<Descriptor>, start: nat) returns (next: nat)
      requires InLoop() && remain >= 6 && start <= |list|
      modifies this, payload
      ensures InLoop() && closed == old(closed)
      ensures next == start + FitCount(list[start..], old(remain) - 6) <= |list|
      ensures cur == old(cur).(entries := old(cur).entries + [Entry(id, list[start..next])])
      ensures tsll == old(tsll)
    {
      hide Word16, LengthField, OpenBytes, TableSections, ContentSize, Bytes;
      ghost var before := payload[..data];
      PutTransportId(id);
      next, data, remain := LengthSerialize(list, payload, data, remain, start);
      ghost var e := Entry(id, list[start..next]);
      LoopGrows(cur, e);
      assert payload[..data] == before + EntryBytes(e);
      cur := cur.(entries := cur.entries + [e]);
    }
  }

  lemma LoopGrows(c: Content, e: Entry)
    requires ContentSize(c) + 6 + |Bytes(e.descs)| < 0x1000
    ensures var c' := c.(entries := c.entries + [e]);
            && ContentSize(c') == ContentSize(c) + 6 + |Bytes(e.descs)|
            && OpenBytes(c') == OpenBytes(c) + EntryBytes(e)
  {
    hide LengthField, EntryBytes;
    LoopOfConcat(c.entries, [e]);
    LoopOfOne(e);
  }

  lemma AddOneSection(t: Table, cs: seq<Content>, c: Content)
    requires forall x :: x in cs + [c] ==> ContentSize(x) <= PAYLOAD_SIZE
    ensures TableSections(t, cs + [c]) == PutSection(TableSections(t, cs), SectionOf(t, c, |cs|))
  {
    assert (cs + [c])[..|cs|] == cs;
  }

  lemma LoopFollowsDescs(c: Content)
    ensures ContentSize(c) == 2 + |Bytes(c.descs)| + 2 + LoopSize(c.entries)
  {
  }

  // Two bytes are replaced before some position.
  lemma Patched(before: seq<Byte>, after: seq<Byte>, at: nat, end: nat, w: seq<Byte>)
    requires at + 2 <= end <= |before| && |w| == 2 && after == before[..at] + w + before[at + 2..]
    ensures after[..end] == before[..end][..at] + w + before[..end][at + 2..]
  {
  }

  // Patching the length of the loop gives the payload of the section.
  lemma PatchedLength(c: Content, b: seq<Byte>)
    requires ContentSize(c) < 0x1000
    requires b == OpenBytes(c)
    ensures b[..2 + |Bytes(c.descs)|] + Word16(0xF000 + LoopSize(c.entries)) + b[4 + |Bytes(c.descs)|..]
            == ContentBytes(c)
  {
    hide Bytes, Word16, LoopSize, LoopBytes;
    Splice(LengthField(|Bytes(c.descs)|), Bytes(c.descs), LengthField(0), LoopBytes(c.entries));
  }

  lemma Splice(w0: seq<Byte>, d: seq<Byte>, w1: seq<Byte>, l: seq<Byte>)
    requires |w0| == |w1| == 2
    ensures var b := w0 + d + w1 + l; b[..2 + |d|] == w0 + d && b[4 + |d|..] == l
  {
  }
}
