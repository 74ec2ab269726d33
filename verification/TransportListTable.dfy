/**
  Tables that list transport streams (tsAbstractTransportListTable.cpp): their
  serialization into sections that follow section hints, and their
  deserialization.
 */
module TransportListTable {
  import opened Octets
  import opened DescriptorLists
  import opened Sections
  import opened TransportFormat
  import opened TransportSchedule
  import opened SectionPlan
  import opened SectionWriter
  import opened TransportRoundTrip

  // The first transport that is hinted for the section or else, when there is none, the
  // first one without hint or with a hint for a previous section.
  method GetNextTransport(hints: Hints, tsSet: seq<TransportId>, section: int)
    returns (found: bool, id: TransportId, rest: seq<TransportId>)
    requires Sorted(tsSet)
    ensures found <==> NextIndex(hints, tsSet, section) < |tsSet|
    ensures found ==> id == tsSet[NextIndex(hints, tsSet, section)]
    ensures found ==> rest == RemoveAt(tsSet, NextIndex(hints, tsSet, section))
    ensures !found ==> rest == tsSet
  {
    found, id, rest := false, TransportId(0, 0), tsSet;
    for it := 0 to |tsSet|
      invariant forall i :: 0 <= i < it ==> !HintedFor(hints, tsSet[i], section)
    {
      if tsSet[it] in hints && hints[tsSet[it]] == section {
        return true, tsSet[it], RemoveAt(tsSet, it);
      }
    }
    for it := 0 to |tsSet|
      invariant forall i :: 0 <= i < it ==> !Unbound(hints, tsSet[i], section)
    {
      if tsSet[it] !in hints || hints[tsSet[it]] < section {
        return true, tsSet[it], RemoveAt(tsSet, it);
      }
    }
  }

  // ----- Serialization -----

  // What the sections hold so far.
  ghost function LayoutOf(w: Writer): Layout
    reads w
  {
    Layout(w.closed, w.cur)
  }

  // The first loop: the top-level list, over several sections if necessary.
  method SerializeDescs(w: Writer, descs: seq<Descriptor>)
    requires w.AtStart() && w.closed == []
    modifies w, w.payload
    ensures w.AfterDescs() && LayoutOf(w) == PlanDescs([], descs)
  {
    hide FitCount, Bytes, LengthField;
    var start := 0;
    assert descs[0..] == descs;
    while true
      invariant w.AtStart() && start <= |descs|
      invariant PlanDescs(w.closed, descs[start..]) == PlanDescs([], descs)
      decreases |descs| - start
    {
      ghost var before := start;
      NextDescs(w.closed, descs, start);
      start := w.PutDescs(descs, start);
      if start == |descs| {
        break;
      }
      w.CloseDescsSection();
    }
  }

  lemma NextDescs(closed: seq<Content>, descs: seq<Descriptor>, start: nat)
    requires start <= |descs|
    ensures var next := start + FitCount(descs[start..], PAYLOAD_SIZE - 4);
            && next <= |descs| && (next == start ==> start == |descs|)
            && PlanDescs(closed, descs[start..])
               == if next == |descs| then Layout(closed, Content(descs[start..next], []))
                  else PlanDescs(closed + [Content(descs[start..next], [])], descs[next..])
  {
    hide FitCount;
    if start < |descs| {
      FitsOne(descs[start..], PAYLOAD_SIZE - 4);
    }
    var n := FitCount(descs[start..], PAYLOAD_SIZE - 4);
    assert descs[start..][..n] == descs[start..start + n] && descs[start..][n..] == descs[start + n..];
    assert descs[start..][..|descs| - start] == descs[start..];
  }

  // The layout of a section in its transport loop fits, with the room that remains.
  lemma LayoutFits(w: Writer)
    requires w.InLoop()
    ensures LayoutOf(w).Fits() && LayoutOf(w).Room() == w.remain
    ensures w.data > w.tsll + 2 <==> w.cur.entries != []
  {
    EmptyLoop(w.cur.entries);
  }

  lemma EmptyLoop(es: seq<Entry>)
    ensures LoopSize(es) == 0 <==> es == []
  {
  }

  // One more piece of a transport, with a new section when descriptors are left.
  lemma PlanPiece(l: Layout, id: TransportId, dlist: seq<Descriptor>, start: nat)
    requires l.Fits() && l.Room() >= 6 && start <= |dlist|
    ensures var next := NextStart(l, dlist, start);
            var l' := l.With(Entry(id, dlist[start..next]));
            && l'.Fits() && l'.NewSection().Fits() && l'.NewSection().Room() >= 6
            && PlanTransport(l, id, dlist, start) == (if next == |dlist| then l' else PlanTransport(l'.NewSection(),
              id, dlist, next))
            && (l.cur == NOTHING && start < |dlist| ==> next > start)
  {
    EntryFits(l, id, dlist, start);
    NewSectionFits(l.With(Entry(id, dlist[start..NextStart(l, dlist, start)])));
  }

  // The transport is written, in several sections if it does not fit in the current one.
  method SerializeTransport(w: Writer, id: TransportId, dlist: seq<Descriptor>)
    requires w.InLoop() && LayoutOf(w).Fits() && LayoutOf(w).Room() == w.remain >= 6
    modifies w, w.payload
    ensures w.InLoop() && LayoutOf(w) == PlanTransport(old(LayoutOf(w)), id, dlist, 0)
  {
    hide FitCount, ContentSize, OpenBytes, LengthField, Bytes, TableSections, PlanTransport, Layout.Fits, Layout.Room;
    ghost var goal := PlanTransport(LayoutOf(w), id, dlist, 0);
    var start := 0;
    while true
      invariant w.InLoop() && start <= |dlist|
      invariant LayoutOf(w).Fits() && LayoutOf(w).Room() == w.remain >= 6
      invariant PlanTransport(LayoutOf(w), id, dlist, start) == goal
      decreases |dlist| - start, LayoutOf(w).cur != NOTHING
    {
      PlanPiece(LayoutOf(w), id, dlist, start);
      start := w.PutEntry(id, dlist, start);
      if start >= |dlist| {
        break;
      }
      w.AddSectionInLoop();
      LayoutFits(w);
    }
  }

  // A new section is opened when the room is not enough, or no transport can go in it.
  lemma PlanOpens(l: Layout, order: seq<TransportId>, transports: Transports, hints: Hints)
    requires l.Fits() && (forall id :: id in order ==> id in transports) && order != []
    requires l.Room() < 6 || NextIndex(hints, order, |l.closed|) == |order|
    ensures l.NewSection().Fits()
        && PlanLoop(l, order, transports, hints) == PlanLoop(l.NewSection(), order, transports, hints)
    ensures Gap(hints, order, |l.closed| + 1) <= Gap(hints, order, |l.closed|)
    ensures l.cur == NOTHING ==> Gap(hints, order, |l.closed| + 1) < Gap(hints, order, |l.closed|)
  {
    OpeningEnds(l, order, transports, hints);
    NewSectionFits(l);
  }

  // Open a new section while nothing can be serialized in the current one.
  method FindTransport(w: Writer, hints: Hints, tsSet: seq<TransportId>, ghost transports: Transports)
    returns (tsId: TransportId, rest: seq<TransportId>)
    requires w.InLoop() && Sorted(tsSet) && tsSet != [] && forall id :: id in tsSet ==> id in transports
    requires LayoutOf(w).Fits() && LayoutOf(w).Room() == w.remain
    modifies w, w.payload
    ensures w.InLoop() && LayoutOf(w).Fits() && LayoutOf(w).Room() == w.remain >= 6
    ensures var i := NextIndex(hints, tsSet, w.sectionNumber);
            i < |tsSet| && tsId == tsSet[i] && rest == RemoveAt(tsSet, i)
    ensures PlanLoop(LayoutOf(w), tsSet, transports, hints) == PlanLoop(old(LayoutOf(w)), tsSet, transports, hints)
    ensures LayoutOf(w) == old(LayoutOf(w)) || w.cur == NOTHING
  {
    hide ContentSize, OpenBytes, LengthField, NextIndex, PlanLoop, Opens, Gap, TableSections, Layout.Fits, Layout.Room;
    ghost var goal := PlanLoop(LayoutOf(w), tsSet, transports, hints);
    if w.remain < 6 {
      PlanOpens(LayoutOf(w), tsSet, transports, hints);
      w.AddSectionInLoop();
      LayoutFits(w);
    }
    var found;
    found, tsId, rest := GetNextTransport(hints, tsSet, w.sectionNumber);
    while !found
      invariant w.InLoop() && LayoutOf(w).Fits() && LayoutOf(w).Room() == w.remain >= 6
      invariant PlanLoop(LayoutOf(w), tsSet, transports, hints) == goal
      invariant LayoutOf(w) == old(LayoutOf(w)) || w.cur == NOTHING
      invariant var i := NextIndex(hints, tsSet, w.sectionNumber);
                (found <==> i < |tsSet|) && (found ==> tsId == tsSet[i] && rest == RemoveAt(tsSet, i))
      decreases Gap(hints, tsSet, w.sectionNumber), w.cur != NOTHING
    {
      PlanOpens(LayoutOf(w), tsSet, transports, hints);
      w.AddSectionInLoop();
      LayoutFits(w);
      found, tsId, rest := GetNextTransport(hints, tsSet, w.sectionNumber);
    }
  }

  // The second loop: all transports, each one in the section of its hint if possible.
  method SerializeTransports(w: Writer, transports: Transports, hints: Hints, order: seq<TransportId>)
    requires w.InLoop() && IsOrder(order, transports) && LayoutOf(w).Fits()
    modifies w, w.payload
    ensures w.InLoop() && LayoutOf(w) == PlanLoop(old(LayoutOf(w)), order, transports, hints)
  {
    hide ContentSize, OpenBytes, LengthField, PlanTransport, NextIndex;
    ghost var goal := PlanLoop(LayoutOf(w), order, transports, hints);
    var tsSet := order;
    while tsSet != []
      invariant w.InLoop() && Sorted(tsSet) && LayoutOf(w).Fits() && forall id :: id in tsSet ==> id in transports
      invariant PlanLoop(LayoutOf(w), tsSet, transports, hints) == goal
      decreases |tsSet|, w.cur.entries != []
    {
      LayoutFits(w);
      var tsId, rest := FindTransport(w, hints, tsSet, transports);
      LayoutFits(w);
      RemovedInOrder(tsSet, NextIndex(hints, tsSet, w.sectionNumber));
      var dlist := transports[tsId];
      if w.data > w.tsll + 2 && 6 + |Bytes(dlist)| > w.remain {
        InsertRemoved(tsSet, NextIndex(hints, tsSet, w.sectionNumber));
        tsSet := Insert(rest, tsId);
        w.AddSectionInLoop();
        LayoutFits(w);
        continue;
      }
      SerializeTransport(w, tsId, dlist);
      LayoutFits(w);
      tsSet := rest;
    }
  }

  // ----- The table object -----

  class TransportListTable {
    var isValid: bool
    var tableId: Byte
    var tidExt: UInt16
    var version: Byte
    var isCurrent: bool
    var descs: seq<Descriptor>
    var transports: Transports
    var order: seq<TransportId>   // the keys of the map of transports, in order
    var sectionHints: Hints

    ghost predicate Valid()
      reads this
    {
      IsOrder(order, transports)
    }

    function AsTable(): Table
      reads this
    {
      Table(isValid, tableId, tidExt, version, isCurrent, descs, transports)
    }

    constructor (id: Byte, ext: UInt16, version_: Byte, current: bool)
      ensures Valid() && AsTable() == Table(true, id, ext, version_, current, [], map[]) && sectionHints == map[]
    {
      isValid, tableId, tidExt, version, isCurrent := true, id, ext, version_, current;
      descs, transports, order, sectionHints := [], map[], [], map[];
    }

    // Method transports[id]: create a transport if it does not exist, then add descriptors.
    method AddDescriptors(id: TransportId, ds: seq<Descriptor>)
      requires Valid()
      modifies this`transports, this`order
      ensures Valid() && transports == AddEntry(old(transports), Entry(id, ds))
    {
      if id !in transports {
        InsertInOrder(order, id);
        order := Insert(order, id);
        transports := transports[id := []];
      }
      transports := transports[id := transports[id] + ds];
    }

    // Serialization: the sections of the plan, if the table is valid.
    method Serialize() returns (sections: seq<Section>)
      requires Valid()
      ensures sections == if isValid then Serialized(AsTable(), order, sectionHints) else []
    {
      hide TableSections, PlanDescs, PlanLoop, ContentSize, OpenBytes, LengthField;
      sections := [];
      if !isValid {
        return;
      }
      PlanDescsFits([], descs);
      var w := new Writer(AsTable());
      SerializeDescs(w, descs);
      w.OpenLoop();
      SerializeTransports(w, transports, sectionHints, order);
      w.AddSectionInLoop();
      sections := w.sections;
    }

    // Deserialization of a table, which is valid when it has sections.
    method Deserialize(sections: seq<Section>)
      requires Valid()
      modifies this
      ensures Valid() && AsTable() == Deserialized(old(AsTable()), sections) && sectionHints == map[]
    {
      isValid, tidExt := false, 0xFFFF;
      descs, transports, order, sectionHints := [], map[], [], map[];
      if sections == [] {
        return;
      }
      var tid := sections[0].tableId;
      if (tableId == TID_NIT_ACT || tableId == TID_NIT_OTH) && (tid == TID_NIT_ACT || tid == TID_NIT_OTH) {
        tableId := tid;
      } else if tid != tableId {
        return;
      }
      hide ReadSections;
      ReadAll(sections);
    }

    // The loop of deserialization.
    method ReadAll(sections: seq<Section>)
      requires Valid() && !isValid
      modifies this`isValid, this`version, this`isCurrent, this`tidExt, this`descs, this`transports, this`order
      ensures Valid() && AsTable() == ReadSections(old(AsTable()), sections)
    {
      hide ReadSections, AfterSection, ParsePayload;
      assert sections[0..] == sections;
      var si := 0;
      while si < |sections|
        invariant 0 <= si <= |sections| && Valid() && !isValid
        invariant ReadSections(AsTable(), sections[si..]) == ReadSections(old(AsTable()), sections)
      {
        ReadFirst(AsTable(), sections, si);
        if sections[si].tableId != tableId {
          return;
        }
        var complete := ReadSection(sections[si]);
        if !complete {
          return;
        }
        si := si + 1;
      }
      ReadNone(AsTable(), sections[si..]);
      isValid := true;
    }

    // The body of the loop of deserialization: one section.
    method ReadSection(sect: Section) returns (complete: bool)
      requires Valid()
      modifies this`version, this`isCurrent, this`tidExt, this`descs, this`transports, this`order
      ensures Valid() && complete == ParsePayload(sect.payload).complete
      ensures AsTable() == AfterSection(old(AsTable()), sect)
    {
      hide ParsePayload;
      version, isCurrent, tidExt := sect.version, sect.isCurrent, sect.tidExt;
      complete := ReadPayload(sect.payload);
    }

    // The payload of one section.
    method ReadPayload(payload: seq<Byte>) returns (complete: bool)
      requires Valid()
      modifies this`descs, this`transports, this`order
      ensures Valid() && complete == ParsePayload(payload).complete
      ensures descs == old(descs) + ParsePayload(payload).content.descs
      ensures transports == AddEntries(old(transports), ParsePayload(payload).content.entries)
    {
      hide ParseDescriptors, GetUInt16, ParseLoop;
      var data, remain := 0, |payload|;
      if remain < 2 {
        return false;
      }
      var infoLength := GetUInt16(payload, data) % 0x1000;
      data, remain := data + 2, remain - 2;
      infoLength := Min(infoLength, remain);
      descs := AddFromMemory(descs, payload[data..data + infoLength]);
      data, remain := data + infoLength, remain - infoLength;
      if remain < 2 {
        return false;
      }
      var tsLength := GetUInt16(payload, data) % 0x1000;
      data, remain := data + 2, remain - 2;
      remain := Min(tsLength, remain);
      ReadLoop(payload[data..data + remain]);
      return true;
    }

    // The transport loop of a payload.
    method ReadLoop(area: seq<Byte>)
      requires Valid()
      modifies this`transports, this`order
      ensures Valid() && transports == AddEntries(old(transports), ParseLoop(area))
    {
      hide ParseDescriptors, GetUInt16, ParseLoop, AddEntries;
      var data: nat, remain: nat := 0, |area|;
      assert area[0..] == area;
      while remain >= 6
        invariant data + remain == |area| && Valid()
        invariant AddEntries(transports, ParseLoop(area[data..])) == AddEntries(old(transports), ParseLoop(area))
        decreases remain
      {
        FirstEntry(transports, area, data);
        var id := TransportId(GetUInt16(area, data), GetUInt16(area, data + 2));
        var infoLength: nat := GetUInt16(area, data + 4) % 0x1000;
        data, remain := data + 6, remain - 6;
        infoLength := Min(infoLength, remain);
        var ds := AddFromMemory([], area[data..data + infoLength]);
        assert ds == EntryAt(area, data - 6).descs;
        AddDescriptors(id, ds);
        data, remain := data + infoLength, remain - infoLength;
      }
      NoEntry(transports, area[data..]);
    }
  }

  lemma ReadFirst(t: Table, sections: seq<Section>, si: nat)
    requires si < |sections|
    ensures ReadSections(t, sections[si..])
         == if sections[si].tableId != t.tableId then t
            else if ParsePayload(sections[si].payload).complete then
              ReadSections(AfterSection(t, sections[si]), sections[si + 1..])
            else AfterSection(t, sections[si])
  {
    hide ParsePayload;
    assert sections[si..][1..] == sections[si + 1..];
  }

  lemma ReadNone(t: Table, sections: seq<Section>)
    requires sections == []
    ensures ReadSections(t, sections) == t.(valid := true)
  {
  }

  // The entry at some place of a transport loop, and the length of its descriptors.
  function LengthAt(b: seq<Byte>, at: nat): nat
    requires at + 6 <= |b|
  {
    Min(GetUInt16(b, at + 4) % 0x1000, |b| - at - 6)
  }

  function EntryAt(b: seq<Byte>, at: nat): Entry
    requires at + 6 <= |b|
  {
    Entry(TransportId(GetUInt16(b, at), GetUInt16(b, at + 2)), ParseDescriptors(b[at + 6..at + 6 + LengthAt(b, at)]))
  }

  lemma NoEntry(m: Transports, b: seq<Byte>)
    requires |b| < 6
    ensures AddEntries(m, ParseLoop(b)) == m
  {
  }

  lemma FirstEntry(m: Transports, b: seq<Byte>, at: nat)
    requires at + 6 <= |b|
    ensures AddEntries(m, ParseLoop(b[at..])) == AddEntries(AddEntry(m, EntryAt(b, at)),
        ParseLoop(b[at + 6 + LengthAt(b, at)..]))
  {
    hide AddEntry, ParseLoop, AddEntries, EntryAt;
    ParseEntryAt(b, at);
    AddFirst(m, EntryAt(b, at), ParseLoop(b[at + 6 + LengthAt(b, at)..]));
  }

  lemma ParseEntryAt(b: seq<Byte>, at: nat)
    requires at + 6 <= |b|
    ensures ParseLoop(b[at..]) == [EntryAt(b, at)] + ParseLoop(b[at + 6 + LengthAt(b, at)..])
  {
    hide GetUInt16, ParseDescriptors;
    SameWord(b, at, 0);
    SameWord(b, at, 2);
    SameWord(b, at, 4);
    var n := LengthAt(b, at);
    assert b[at..][6..6 + n] == b[at + 6..at + 6 + n] && b[at..][6 + n..] == b[at + 6 + n..];
  }

  lemma AddFirst(m: Transports, e: Entry, es: seq<Entry>)
    ensures AddEntries(m, [e] + es) == AddEntries(AddEntry(m, e), es)
  {
    assert ([e] + es)[1..] == es;
  }

  lemma SameWord(b: seq<Byte>, at: nat, k: nat)
    requires at + k + 2 <= |b|
    ensures GetUInt16(b[at..], k) == GetUInt16(b, at + k)
  {
  }
}
