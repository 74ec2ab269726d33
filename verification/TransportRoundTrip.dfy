/**
  When the deserialization of a serialized table that lists transport streams gives
  back the table (tsAbstractTransportListTable.cpp, tsBinaryTable.cpp).
 */
module TransportRoundTrip {
  import opened Octets
  import opened DescriptorLists
  import opened Sections
  import opened TransportFormat
  import opened TransportSchedule
  import opened SectionPlan

  const TID_NIT_ACT: Byte := 0x40
  const TID_NIT_OTH: Byte := 0x41

  // What serialization makes of a valid table.
  function Serialized(t: Table, order: seq<TransportId>, hints: Hints): seq<Section>
    requires IsOrder(order, t.transports)
  {
    TableSections(t, Plan(t.descs, t.transports, order, hints))
  }

  // An object of one kind can read a table of the other one: NIT Actual and NIT Other are
  // compatible.
  predicate Compatible(tid: Byte, tid': Byte) {
    tid == tid' || (tid in {0x40, 0x41} && tid' in {0x40, 0x41})
  }

  // What deserialization makes of a table object, section hints excepted.
  function Deserialized(t: Table, sections: seq<Section>): Table {
    var cleared := t.(valid := false, tidExt := 0xFFFF, descs := [], transports := map[]);
    if sections == [] then cleared
    else
      var tid := sections[0].tableId;
      if t.tableId in {TID_NIT_ACT, TID_NIT_OTH} && tid in {TID_NIT_ACT, TID_NIT_OTH} then
        ReadSections(cleared.(tableId := tid), sections)
      else if tid != t.tableId then cleared
      else ReadSections(cleared, sections)
  }

  // ----- Up to 256 sections -----

  // An object of a compatible kind that reads the sections of a table becomes that table, as
  // long as its version is possible and it takes at most 256 sections.
  lemma DeserializeSerialized(t: Table, t0: Table, cs: seq<Content>)
    requires t.valid && Compatible(t0.tableId, t.tableId) && t.version <= MAX_VERSION && cs != [] && |cs| <= 256
    requires forall c :: c in cs ==> ContentSize(c) <= PAYLOAD_SIZE
    requires AllDescs(cs) == t.descs && Merged(cs) == t.transports
    ensures Deserialized(t0, TableSections(t, cs)) == t
  {
    hide ContentBytes, ContentSize, ReadSections, TableSections, AllDescs, AllEntries, AddEntries;
    var sections := TableSections(t, cs);
    NoSectionReplaced(t, cs);
    var cleared := t0.(valid := false, tableId := t.tableId, tidExt := 0xFFFF, descs := [], transports := map[]);
    ReadAllSections(t, cleared, cs, sections, 0);
    assert sections[0..] == sections && cs[0..] == cs;
  }

  // ----- More than 256 sections -----

  // A section number is one byte: a section stays until the section 256 places later
  // replaces it.
  lemma {:induction false} LastWriterWins(t: Table, cs: seq<Content>, k: nat, m: nat)
    requires forall c :: c in cs ==> ContentSize(c) <= PAYLOAD_SIZE
    requires t.version <= MAX_VERSION && k < m <= |cs| && m <= k + 256
    ensures k % 256 < |TableSections(t, cs[..m])|
    ensures TableSections(t, cs[..m])[k % 256] == SectionOf(t, cs[k], k)
    decreases m
  {
    hide ContentBytes;
    AtMost256Sections(t, cs[..m - 1]);
    AtMost256Sections(t, cs[..m]);
    assert cs[..m][..m - 1] == cs[..m - 1];
    if k < m - 1 {
      LastWriterWins(t, cs, k, m - 1);
      OtherNumber(k, m - 1);
    }
  }

  lemma OtherNumber(k: nat, n: nat)
    requires k < n < k + 256
    ensures n % 256 != k % 256
  {
  }

  // The place after which the last 256 sections begin again with number 0.
  function WrapPoint(cs: seq<Content>): nat {
    |cs| - |cs| % 256
  }

  // The sections before the wrap point that are not replaced, and those after it.
  function BeforeWrap(cs: seq<Content>): seq<Content>
    requires |cs| > 256
  {
    cs[|cs| - 256..WrapPoint(cs)]
  }

  function AfterWrap(cs: seq<Content>): seq<Content> {
    cs[WrapPoint(cs)..]
  }

  // The last 256 sections, each one at its number modulo 256.
  function LastSections(cs: seq<Content>): (left: seq<Content>)
    requires |cs| > 256
    ensures |left| == 256 && forall c :: c in left ==> c in cs
  {
    AfterWrap(cs) + BeforeWrap(cs)
  }

  lemma LastSectionsRemain(t: Table, cs: seq<Content>)
    requires forall c :: c in cs ==> ContentSize(c) <= PAYLOAD_SIZE
    requires |cs| > 256 && t.version <= MAX_VERSION
    ensures TableSections(t, cs) == TableSections(t, LastSections(cs))
  {
    hide ContentBytes, ContentSize, TableSections, LastSections;
    var left := LastSections(cs);
    NoSectionReplaced(t, left);
    AtMost256Sections(t, cs);
    assert cs[..|cs|] == cs;
    forall i | 0 <= i < 256 ensures TableSections(t, cs)[i] == TableSections(t, left)[i] {
      var k := PlaceOf(cs, i);
      LastWriterWins(t, cs, k, |cs|);
    }
  }

  // Where the section with some number comes from.
  lemma PlaceOf(cs: seq<Content>, i: nat) returns (k: nat)
    requires |cs| > 256 && i < 256
    ensures |cs| - 256 <= k < |cs| && k % 256 == i && cs[k] == LastSections(cs)[i]
  {
    var n := WrapPoint(cs);
    k := if i < |cs| % 256 then n + i else n - 256 + i;
  }

  // Sections carry the common properties of a table only.
  lemma {:induction false} SameSections(t: Table, t': Table, cs: seq<Content>)
    requires forall c :: c in cs ==> ContentSize(c) <= PAYLOAD_SIZE
    requires t'.tableId == t.tableId && t'.tidExt == t.tidExt && t'.version == t.version && t'.isCurrent == t.isCurrent
    ensures TableSections(t, cs) == TableSections(t', cs)
    decreases |cs|
  {
    hide ContentBytes;
    if cs != [] {
      SameSections(t, t', cs[..|cs| - 1]);
    }
  }

  // Beyond 256 sections, what is read is what the last ones hold.
  lemma ReadLastSections(t: Table, t0: Table, cs: seq<Content>)
    requires t.valid && Compatible(t0.tableId, t.tableId) && t.version <= MAX_VERSION && |cs| > 256
    requires forall c :: c in cs ==> ContentSize(c) <= PAYLOAD_SIZE
    ensures var left := LastSections(cs);
            Deserialized(t0, TableSections(t, cs)) == t.(descs := AllDescs(left), transports := Merged(left))
  {
    hide ContentBytes, ContentSize, TableSections, Deserialized, AllDescs, Merged;
    var left := LastSections(cs);
    LastSectionsRemain(t, cs);
    var t' := t.(descs := AllDescs(left), transports := Merged(left));
    DeserializeSerialized(t', t0, left);
    SameSections(t, t', left);
  }

  // ----- The pieces of a transport -----

  // The descriptors that some entries give to a transport, in order.
  function Pieces(es: seq<Entry>, id: TransportId): seq<Descriptor> {
    if es == [] then [] else (if es[0].id == id then es[0].descs else []) + Pieces(es[1..], id)
  }

  predicate HasId(es: seq<Entry>, id: TransportId) {
    exists p :: 0 <= p < |es| && es[p].id == id
  }

  lemma {:induction false} PiecesOfConcat(a: seq<Entry>, b: seq<Entry>, id: TransportId)
    ensures Pieces(a + b, id) == Pieces(a, id) + Pieces(b, id)
  {
    if a == [] {
      assert a + b == b;
    } else {
      assert (a + b)[1..] == a[1..] + b;
      PiecesOfConcat(a[1..], b, id);
    }
  }

  lemma HasIdOfConcat(a: seq<Entry>, b: seq<Entry>, id: TransportId)
    ensures HasId(a + b, id) <==> HasId(a, id) || HasId(b, id)
  {
    if HasId(a, id) {
      var p :| 0 <= p < |a| && a[p].id == id;
      assert (a + b)[p].id == id;
    }
    if HasId(b, id) {
      var p :| 0 <= p < |b| && b[p].id == id;
      assert (a + b)[|a| + p].id == id;
    }
  }

  // A transport is in the result with its pieces, after what it had before.
  lemma {:induction false} AddedPieces(m: Transports, es: seq<Entry>, id: TransportId)
    ensures id in AddEntries(m, es) <==> id in m || HasId(es, id)
    ensures id in AddEntries(m, es) ==> AddEntries(m, es)[id] == (if id in m then m[id] else []) + Pieces(es, id)
    decreases |es|
  {
    if es != [] {
      AddedPieces(AddEntry(m, es[0]), es[1..], id);
      HasIdOfConcat([es[0]], es[1..], id);
      assert es == [es[0]] + es[1..];
      assert [es[0]][0].id == es[0].id;
    }
  }

  // ----- When a table survives -----

  // The pieces of each transport before and after the wrap point can be exchanged. This
  // is so of all transports but one that goes on across the wrap point.
  ghost predicate WrapCommutes(cs: seq<Content>)
    requires |cs| > 256
  {
    forall id: TransportId ::
      var a, b := Pieces(AllEntries(BeforeWrap(cs)), id), Pieces(AllEntries(AfterWrap(cs)), id);
      a + b == b + a
  }

  // There are at most 256 sections, or those that are replaced hold nothing and the order
  // of the other ones does not matter.
  ghost predicate Survives(cs: seq<Content>) {
    |cs| <= 256 || ((forall k :: 0 <= k < |cs| - 256 ==> cs[k] == NOTHING) && WrapCommutes(cs))
  }

  // An entry without descriptors is the only one of its transport.
  ghost predicate PiecesNotEmpty(es: seq<Entry>) {
    forall p, q :: 0 <= p < |es| && 0 <= q < |es| && p != q && es[p].id == es[q].id ==> es[p].descs != []
  }

  // The sections in three parts: those that are replaced, and the other ones.
  lemma ThreeParts(cs: seq<Content>, id: TransportId)
    requires |cs| > 256
    ensures var lost, a, b := cs[..|cs| - 256], BeforeWrap(cs), AfterWrap(cs);
            && AllDescs(cs) == AllDescs(lost) + (AllDescs(a) + AllDescs(b))
            && AllDescs(LastSections(cs)) == AllDescs(b) + AllDescs(a)
            && Pieces(AllEntries(cs), id) == Pieces(AllEntries(lost), id) + (Pieces(AllEntries(a),
              id) + Pieces(AllEntries(b), id))
            && Pieces(AllEntries(LastSections(cs)), id) == Pieces(AllEntries(b), id) + Pieces(AllEntries(a), id)
            && AllEntries(cs) == AllEntries(lost) + (AllEntries(a) + AllEntries(b))
            && AllEntries(LastSections(cs)) == AllEntries(b) + AllEntries(a)
  {
    hide AllDescs, AllEntries, Pieces;
    var lost, a, b := cs[..|cs| - 256], BeforeWrap(cs), AfterWrap(cs);
    assert cs == lost + (a + b);
    AllOfConcat(lost, a + b);
    AllOfConcat(a, b);
    AllOfConcat(b, a);
    PiecesOfConcat(AllEntries(lost), AllEntries(a) + AllEntries(b), id);
    PiecesOfConcat(AllEntries(a), AllEntries(b), id);
    PiecesOfConcat(AllEntries(b), AllEntries(a), id);
  }

  lemma {:induction false} EmptySections(cs: seq<Content>)
    requires forall k :: 0 <= k < |cs| ==> cs[k] == NOTHING
    ensures AllDescs(cs) == [] && AllEntries(cs) == []
  {
    if cs != [] {
      EmptySections(cs[1..]);
    }
  }

  // When all replaced sections are empty and the order of the other ones does not matter,
  // the other ones hold the table.
  lemma LastSectionsHold(cs: seq<Content>)
    requires |cs| > 256 && Survives(cs) && AllDescs(cs) == []
    ensures AllDescs(LastSections(cs)) == [] && Merged(LastSections(cs)) == Merged(cs)
  {
    hide AllDescs, AllEntries, Pieces, LastSections, AddEntries, HasId;
    var lost, a, b := cs[..|cs| - 256], BeforeWrap(cs), AfterWrap(cs);
    EmptySections(lost);
    ThreeParts(cs, TransportId(0, 0));
    forall id ensures id in Merged(cs) <==> id in Merged(LastSections(cs))
      ensures id in Merged(cs) ==> Merged(cs)[id] == Merged(LastSections(cs))[id]
    {
      ThreeParts(cs, id);
      AddedPieces(map[], AllEntries(cs), id);
      AddedPieces(map[], AllEntries(LastSections(cs)), id);
      HasIdOfConcat(AllEntries(a), AllEntries(b), id);
      HasIdOfConcat(AllEntries(b), AllEntries(a), id);
      assert AllEntries(cs) == AllEntries(a) + AllEntries(b);
      assert Pieces([], id) == [] by { NoPieces(id); }
    }
  }

  lemma NoPieces(id: TransportId)
    ensures Pieces([], id) == [] && !HasId([], id)
  {
  }

  // A transport with an entry in a replaced section is not restored: descriptors are
  // lost, or its only entry is.
  lemma EntryLost(cs: seq<Content>, p: nat)
    requires |cs| > 256 && PiecesNotEmpty(AllEntries(cs)) && p < |AllEntries(cs[..|cs| - 256])|
    ensures Merged(LastSections(cs)) != Merged(cs)
  {
    hide AllDescs, AllEntries, Pieces, LastSections, AddEntries, PiecesNotEmpty, HasId;
    var lost, all, left := AllEntries(cs[..|cs| - 256]), AllEntries(cs), AllEntries(LastSections(cs));
    var id := lost[p].id;
    ThreeParts(cs, id);
    assert all[p] == lost[p];
    IdAt(all, p);
    AddedPieces(map[], all, id);
    AddedPieces(map[], left, id);
    PieceAt(lost, p);
    if lost[p].descs == [] {
      var a, b := AllEntries(BeforeWrap(cs)), AllEntries(AfterWrap(cs));
      OnlyOne(lost, a + b, p);
      HasIdOfConcat(a, b, id);
      HasIdOfConcat(b, a, id);
    }
  }

  lemma IdAt(es: seq<Entry>, p: nat)
    requires p < |es|
    ensures HasId(es, es[p].id)
  {
  }

  lemma PieceAt(es: seq<Entry>, p: nat)
    requires p < |es|
    ensures |Pieces(es, es[p].id)| >= |es[p].descs|
  {
    var id := es[p].id;
    assert es == es[..p] + ([es[p]] + es[p + 1..]);
    PiecesOfConcat(es[..p], [es[p]] + es[p + 1..], id);
  }

  lemma OnlyOne(a: seq<Entry>, b: seq<Entry>, p: nat)
    requires PiecesNotEmpty(a + b) && p < |a| && a[p].descs == []
    ensures !HasId(b, a[p].id)
  {
    assert (a + b)[p] == a[p];
    forall q | 0 <= q < |b| ensures b[q].id != a[p].id {
      assert (a + b)[|a| + q] == b[q];
    }
  }

  // The exact condition for contents that hold a table.
  lemma RestoredExactly(t: Table, t0: Table, cs: seq<Content>)
    requires t.valid && forall c :: c in cs ==> ContentSize(c) <= PAYLOAD_SIZE
    requires HoldsDescs(cs, t.descs) && Merged(cs) == t.transports
    requires t.descs == [] ==> PiecesNotEmpty(AllEntries(cs))
    ensures Deserialized(t0, TableSections(t, cs)) == t
       <==> Compatible(t0.tableId, t.tableId) && t.version <= MAX_VERSION && Survives(cs)
  {
    hide ContentBytes, ContentSize, TableSections, AllDescs, AllEntries, AddEntries, LastSections, ReadSections,
      Survives, PiecesNotEmpty;
    AtMost256Sections(t, cs);
    if t.version <= MAX_VERSION && !Compatible(t0.tableId, t.tableId) {
      FirstTableId(t, cs);
    } else if t.version <= MAX_VERSION {
      if |cs| <= 256 {
        DeserializeSerialized(t, t0, cs);
        FewSurvive(cs);
      } else {
        ReadLastSections(t, t0, cs);
        if Survives(cs) {
          NoTopLevelList(cs);
          LastSectionsHold(cs);
        } else {
          SomethingLost(cs, t.descs);
        }
      }
    }
  }

  lemma FirstTableId(t: Table, cs: seq<Content>)
    requires (forall c :: c in cs ==> ContentSize(c) <= PAYLOAD_SIZE) && cs != [] && t.version <= MAX_VERSION
    ensures TableSections(t, cs) != [] && TableSections(t, cs)[0].tableId == t.tableId
  {
    hide ContentBytes, ContentSize, TableSections, LastSections;
    if |cs| <= 256 {
      NoSectionReplaced(t, cs);
    } else {
      LastSectionsRemain(t, cs);
      NoSectionReplaced(t, LastSections(cs));
    }
  }

  lemma FewSurvive(cs: seq<Content>)
    ensures |cs| <= 256 ==> Survives(cs)
  {
  }

  lemma NoTopLevelList(cs: seq<Content>)
    requires |cs| > 256 && Survives(cs)
    ensures cs[0].descs == []
  {
  }

  // When the table does not survive, something is not restored.
  lemma SomethingLost(cs: seq<Content>, descs: seq<Descriptor>)
    requires |cs| > 256 && !Survives(cs) && HoldsDescs(cs, descs)
    requires descs == [] ==> PiecesNotEmpty(AllEntries(cs))
    ensures AllDescs(LastSections(cs)) != descs || Merged(LastSections(cs)) != Merged(cs)
  {
    hide AllDescs, AllEntries, Pieces, LastSections, AddEntries, PiecesNotEmpty;
    var lost := cs[..|cs| - 256];
    ThreeParts(cs, TransportId(0, 0));
    if descs != [] {
      assert lost[0] == cs[0];
      FirstDescs(lost);
      assert |AllDescs(LastSections(cs))| < |AllDescs(cs)|;
    } else if AllEntries(lost) != [] {
      EntryLost(cs, 0);
    } else {
      NothingLost(cs, lost);
      assert forall k :: 0 <= k < |cs| - 256 ==> cs[k] == lost[k];
      OrderMatters(cs);
    }
  }

  lemma FirstDescs(cs: seq<Content>)
    requires cs != [] && cs[0].descs != []
    ensures AllDescs(cs) != []
  {
  }

  lemma {:induction false} NothingLost(cs: seq<Content>, lost: seq<Content>)
    requires lost <= cs && AllEntries(lost) == [] && AllDescs(cs) == []
    ensures forall k :: 0 <= k < |lost| ==> lost[k] == NOTHING
    decreases |lost|
  {
    if lost != [] {
      NothingLost(cs[1..], lost[1..]);
      forall k | 0 <= k < |lost| ensures lost[k] == NOTHING {
        if k > 0 {
          assert lost[k] == lost[1..][k - 1];
        }
      }
    }
  }

  lemma OrderMatters(cs: seq<Content>)
    requires |cs| > 256 && !WrapCommutes(cs) && AllEntries(cs[..|cs| - 256]) == []
    ensures Merged(LastSections(cs)) != Merged(cs)
  {
    hide AllDescs, AllEntries, Pieces, LastSections, AddEntries, HasId;
    var before, after := AllEntries(BeforeWrap(cs)), AllEntries(AfterWrap(cs));
    var id: TransportId :| Pieces(before, id) + Pieces(after, id) != Pieces(after, id) + Pieces(before, id);
    ThreeParts(cs, id);
    NoPieces(id);
    var a, b := Pieces(before, id), Pieces(after, id);
    assert Pieces(AllEntries(cs), id) == a + b && a + b != [];
    PiecesNeedId(AllEntries(cs), id);
    assert [] + (a + b) == a + b && [] + (b + a) == b + a;
    AddedPieces(map[], AllEntries(cs), id);
    AddedPieces(map[], AllEntries(LastSections(cs)), id);
  }

  lemma {:induction false} PiecesNeedId(es: seq<Entry>, id: TransportId)
    ensures Pieces(es, id) != [] ==> HasId(es, id)
  {
    if es != [] {
      PiecesNeedId(es[1..], id);
      HasIdOfConcat([es[0]], es[1..], id);
      assert es == [es[0]] + es[1..] && [es[0]][0] == es[0];
    }
  }

  // ----- Entries without descriptors, without a top-level list -----

  lemma AppendPiece(es: seq<Entry>, e: Entry)
    requires PiecesNotEmpty(es)
    requires (e.descs != [] && forall p :: 0 <= p < |es| && es[p].id == e.id ==> es[p].descs != [])
          || forall p :: 0 <= p < |es| ==> es[p].id != e.id
    ensures PiecesNotEmpty(es + [e])
  {
  }

  lemma EntriesWith(l: Layout, e: Entry)
    ensures AllEntries(l.With(e).All()) == AllEntries(l.All()) + [e]
  {
    AllOfConcat(l.closed, [l.cur]);
    AllOfConcat(l.closed, [l.With(e).cur]);
    AllOfOne(l.cur);
    AllOfOne(l.With(e).cur);
  }

  lemma EntriesOfNewSection(l: Layout)
    ensures AllEntries(l.NewSection().All()) == AllEntries(l.All())
  {
    AllOfConcat(l.All(), [NOTHING]);
    AllOfOne(NOTHING);
  }

  // Pieces of a transport, if any, are written and not empty.
  predicate Begun(es: seq<Entry>, id: TransportId, start: nat) {
    forall p :: 0 <= p < |es| && es[p].id == id ==> start > 0 && es[p].descs != []
  }

  // Only entries of one transport are added.
  predicate OnlyAdds(es: seq<Entry>, es': seq<Entry>, id: TransportId) {
    forall p :: 0 <= p < |es'| ==> es'[p].id == id || es'[p] in es
  }

  lemma {:induction false} TransportPieces(l: Layout, id: TransportId, dlist: seq<Descriptor>, start: nat)
    requires l.Fits() && l.Room() >= 6 && start <= |dlist| && l.cur.descs == []
    requires l.cur.entries == [] || NextStart(l, dlist, start) == |dlist|
    requires PiecesNotEmpty(AllEntries(l.All())) && Begun(AllEntries(l.All()), id, start)
            && (start > 0 ==> start < |dlist|)
    ensures var l' := PlanTransport(l, id, dlist, start);
            && PiecesNotEmpty(AllEntries(l'.All())) && OnlyAdds(AllEntries(l.All()), AllEntries(l'.All()), id)
            && l'.cur.descs == []
    decreases |dlist| - start, l.cur != NOTHING
  {
    hide PiecesNotEmpty, AllEntries;
    var next := NextStart(l, dlist, start);
    var e := Entry(id, dlist[start..next]);
    var l' := l.With(e);
    EntryFits(l, id, dlist, start);
    EntriesWith(l, e);
    AppendPiece(AllEntries(l.All()), e);
    if next < |dlist| {
      NewSectionFits(l');
      EntriesOfNewSection(l');
      hide NextStart;
      TransportPieces(l'.NewSection(), id, dlist, next);
    }
  }

  lemma {:induction false} LoopPieces(l: Layout, order: seq<TransportId>, transports: Transports, hints: Hints)
    requires l.Fits() && Sorted(order) && l.cur.descs == [] && forall id :: id in order ==> id in transports
    requires PiecesNotEmpty(AllEntries(l.All()))
    requires forall p :: 0 <= p < |AllEntries(l.All())| ==> AllEntries(l.All())[p].id !in order
    ensures PiecesNotEmpty(AllEntries(PlanLoop(l, order, transports, hints).All()))
    decreases |order|, Gap(hints, order, |l.closed|), l.cur != NOTHING
  {
    hide PiecesNotEmpty, AllEntries, Opens, NextIndex, Gap, PlanTransport, NextStart;
    if order == [] {
    } else if Opens(l, order, transports, hints) {
      OpeningEnds(l, order, transports, hints);
      NewSectionFits(l);
      EntriesOfNewSection(l);
      LoopPieces(l.NewSection(), order, transports, hints);
    } else {
      var i := NextIndex(hints, order, |l.closed|);
      SomethingGoes(l, order, transports, hints);
      RemovedInOrder(order, i);
      FitsOrFirst(l, order, transports, hints);
      TransportPieces(l, order[i], transports[order[i]], 0);
      LoopPieces(PlanTransport(l, order[i], transports[order[i]], 0), RemoveAt(order, i), transports, hints);
    }
  }

  lemma PlanPieces(transports: Transports, order: seq<TransportId>, hints: Hints)
    requires IsOrder(order, transports)
    ensures PiecesNotEmpty(AllEntries(Plan([], transports, order, hints)))
  {
    var l := PlanDescs([], []);
    DescsArePlanned([], []);
    PlanDescsFits([], []);
    LoopPieces(l, order, transports, hints);
  }

  // ----- The round trip -----

  // A table is restored by an object if and only if the object is of a compatible kind, the
  // version of the table is possible and its plan survives: it has at most 256 sections, or
  // there is no top-level list, the sections before the last 256 ones are empty, and the
  // pieces of a transport that goes on across the wrap point can be exchanged.
  lemma RestoredIff(t: Table, t0: Table, order: seq<TransportId>, hints: Hints)
    requires t.valid && IsOrder(order, t.transports)
    ensures Deserialized(t0, Serialized(t, order, hints)) == t
       <==> (&& Compatible(t0.tableId, t.tableId) && t.version <= 31
             && Survives(Plan(t.descs, t.transports, order, hints)))
  {
    hide Plan, Deserialized, TableSections, HoldsDescs, Merged, Survives, ContentSize, PiecesNotEmpty;
    var cs := Plan(t.descs, t.transports, order, hints);
    var starts := PlanIsRight(t.descs, t.transports, order, hints);
    if t.descs == [] {
      PlanPieces(t.transports, order, hints);
    }
    RestoredExactly(t, t0, cs);
  }

  // With a top-level list, at most 256 sections is the condition, whatever the hints.
  lemma SurvivesWithTopLevelList(t: Table, order: seq<TransportId>, hints: Hints)
    requires IsOrder(order, t.transports) && t.descs != []
    ensures var cs := Plan(t.descs, t.transports, order, hints); Survives(cs) <==> |cs| <= 256
  {
    var starts := PlanIsRight(t.descs, t.transports, order, hints);
  }

  // A transport is never in a section before the one of its hint, so that the number of
  // sections is more than any hint of a transport of the table.
  lemma SectionsBeyondHint(t: Table, order: seq<TransportId>, hints: Hints, id: TransportId)
    requires IsOrder(order, t.transports) && id in t.transports && id in hints
    ensures |Plan(t.descs, t.transports, order, hints)| > hints[id]
  {
    hide Plan, AllEntries, AddEntries;
    var cs := Plan(t.descs, t.transports, order, hints);
    var starts := PlanIsRight(t.descs, t.transports, order, hints);
    AddedPieces(map[], AllEntries(cs), id);
    EntryInSection(cs, id);
    var n, k :| 0 <= n < |cs| && 0 <= k < |cs[n].entries| && cs[n].entries[k].id == id;
    assert Started(starts, cs[n].entries[k].id);
  }

  lemma {:induction false} EntryInSection(cs: seq<Content>, id: TransportId)
    ensures HasId(AllEntries(cs), id) ==>
        exists n, k :: 0 <= n < |cs| && 0 <= k < |cs[n].entries| && cs[n].entries[k].id == id
  {
    if cs != [] {
      EntryInSection(cs[1..], id);
      HasIdOfConcat(cs[0].entries, AllEntries(cs[1..]), id);
      if HasId(cs[0].entries, id) {
        var k :| 0 <= k < |cs[0].entries| && cs[0].entries[k].id == id;
      } else if HasId(AllEntries(cs[1..]), id) {
        var n, k :| 0 <= n < |cs[1..]| && 0 <= k < |cs[1..][n].entries| && cs[1..][n].entries[k].id == id;
        assert cs[n + 1] == cs[1..][n];
      }
    }
  }

  // Tables that are not restored: with a top-level list and a transport that is hinted for
  // section 256 or a later one.
  lemma HintBeyondIsNotRestored(t: Table, t0: Table, order: seq<TransportId>, hints: Hints, id: TransportId)
    requires t.valid && IsOrder(order, t.transports)
    requires t.descs != [] && id in t.transports && id in hints && hints[id] >= 256
    ensures Deserialized(t0, Serialized(t, order, hints)) != t
  {
    hide Plan, Deserialized, Serialized, Survives;
    SectionsBeyondHint(t, order, hints, id);
    SurvivesWithTopLevelList(t, order, hints);
    RestoredIff(t, t0, order, hints);
  }

  // One of them: one descriptor, and one transport without descriptors hinted for section 256.
  lemma SmallTableIsNotRestored(t: Table, d: Descriptor, id: TransportId)
    requires t.valid && t.descs == [d] && t.transports == map[id := []]
    ensures Deserialized(t, Serialized(t, [id], map[id := 256])) != t
  {
    hide Deserialized, Serialized;
    HintBeyondIsNotRestored(t, t, [id], map[id := 256], id);
  }

  // A table of an impossible version is not restored, as none of its sections is accepted.
  lemma Version32IsNotRestored(t: Table, order: seq<TransportId>, hints: Hints)
    requires t.valid && t.version == 32 && IsOrder(order, t.transports)
    ensures Serialized(t, order, hints) == [] && !Deserialized(t, Serialized(t, order, hints)).valid
  {
    hide Plan;
    AtMost256Sections(t, Plan(t.descs, t.transports, order, hints));
  }

  // ----- Restored in more than 256 sections -----

  // All closed sections are empty, and so is the current one.
  lemma {:induction false} OneTransportPlan(l: Layout, id: TransportId, transports: Transports, hints: Hints)
    requires l.Fits() && id in transports && 6 + |Bytes(transports[id])| <= PAYLOAD_SIZE - 4
    requires forall k :: 0 <= k < |l.All()| ==> l.All()[k] == NOTHING
    ensures var cs := PlanLoop(l, [id], transports, hints).All();
            && (forall k :: 0 <= k < |cs| - 1 ==> cs[k] == NOTHING)
            && cs[|cs| - 1] == Content([], [Entry(id, transports[id])])
    decreases Gap(hints, [id], |l.closed|)
  {
    hide FitCount, Gap, NextIndex;
    assert l.cur == l.All()[|l.closed|] == NOTHING;
    if Opens(l, [id], transports, hints) {
      OpeningEnds(l, [id], transports, hints);
      NewSectionFits(l);
      OneTransportPlan(l.NewSection(), id, transports, hints);
    } else {
      WriteWhole(l, id, transports[id]);
      assert RemoveAt([id], 0) == [];
    }
  }

  lemma WriteWhole(l: Layout, id: TransportId, dlist: seq<Descriptor>)
    requires l.Fits() && l.cur == NOTHING && 6 + |Bytes(dlist)| <= PAYLOAD_SIZE - 4
    requires forall k :: 0 <= k < |l.All()| ==> l.All()[k] == NOTHING
    ensures var cs := PlanTransport(l, id, dlist, 0).All();
            && (forall k :: 0 <= k < |cs| - 1 ==> cs[k] == NOTHING)
            && cs[|cs| - 1] == Content([], [Entry(id, dlist)])
  {
    assert dlist[0..] == dlist && dlist[0..|dlist|] == dlist;
    FitAll(dlist, l.Room() - 6);
    forall k | 0 <= k < |l.closed| ensures l.closed[k] == NOTHING {
      assert l.All()[k] == l.closed[k];
    }
  }

  // A table without a top-level list and with one transport that fits in one section is
  // restored whatever its hint, even when its section is far beyond 256.
  lemma OneTransportIsRestored(t: Table, t0: Table, id: TransportId, dlist: seq<Descriptor>, hints: Hints)
    requires t.valid && Compatible(t0.tableId, t.tableId) && t.version <= MAX_VERSION
    requires t.descs == [] && t.transports == map[id := dlist] && 6 + |Bytes(dlist)| <= PAYLOAD_SIZE - 4
    ensures Deserialized(t0, Serialized(t, [id], hints)) == t
  {
    hide Deserialized, Serialized, Bytes;
    var l := PlanDescs([], []);
    assert l == Layout([], NOTHING) by { NoDescs(); }
    PlanDescsFits([], []);
    OneTransportPlan(l, id, t.transports, hints);
    var cs := Plan([], t.transports, [id], hints);
    if |cs| > 256 {
      LastOnly(cs);
    }
    RestoredIff(t, t0, [id], hints);
  }

  lemma NoDescs()
    ensures PlanDescs([], []) == Layout([], NOTHING)
  {
  }

  lemma LastOnly(cs: seq<Content>)
    requires |cs| > 256 && forall k :: 0 <= k < |cs| - 1 ==> cs[k] == NOTHING
    ensures Survives(cs)
  {
    hide AllEntries, Pieces;
    var a, b := BeforeWrap(cs), AfterWrap(cs);
    if b != [] {
      EmptySections(a);
    } else {
      EmptySections(b);
    }
    forall id: TransportId ensures Pieces(AllEntries(a), id) + Pieces(AllEntries(b), id) == Pieces(AllEntries(b),
      id) + Pieces(AllEntries(a), id) {
      NoPieces(id);
    }
  }
}
