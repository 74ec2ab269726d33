/**
  The plan of the sections of a table that lists transport streams, as a function of
  its descriptors, its transports and its section hints (tsAbstractTransportListTable.cpp):
  what each section holds, and what is always true of it.
 */
module SectionPlan {
  import opened DescriptorLists
  import opened Sections
  import opened TransportFormat
  import opened TransportSchedule

  // ----- Ordered sets of transport ids -----

  predicate Sorted(s: seq<TransportId>) {
    forall i, j :: 0 <= i < j < |s| ==> s[i].Normalized() < s[j].Normalized()
  }

  function Elements(s: seq<TransportId>): set<TransportId> {
    set id | id in s
  }

  // Insertion in an ordered set.
  function Insert(s: seq<TransportId>, id: TransportId): seq<TransportId> {
    if s == [] || id.Normalized() < s[0].Normalized() then [id] + s else [s[0]] + Insert(s[1..], id)
  }

  lemma SameKey(a: TransportId, b: TransportId)
    ensures a.Normalized() == b.Normalized() ==> a == b
  {
  }

  lemma {:induction false} InsertInOrder(s: seq<TransportId>, id: TransportId)
    requires Sorted(s) && id !in s
    ensures Sorted(Insert(s, id)) && |Insert(s, id)| == |s| + 1
    ensures forall x :: x in Insert(s, id) <==> x in s || x == id
  {
    if s == [] || id.Normalized() < s[0].Normalized() {
    } else {
      SameKey(id, s[0]);
      InsertInOrder(s[1..], id);
      var r := Insert(s[1..], id);
      forall i | 0 <= i < |r| ensures s[0].Normalized() < r[i].Normalized() {
        assert r[i] in r;
      }
      assert s == [s[0]] + s[1..];
    }
  }

  // The ordered set without one of its elements.
  function RemoveAt(s: seq<TransportId>, i: nat): seq<TransportId>
    requires i < |s|
  {
    s[..i] + s[i + 1..]
  }

  lemma RemovedInOrder(s: seq<TransportId>, i: nat)
    requires Sorted(s) && i < |s|
    ensures Sorted(RemoveAt(s, i)) && Elements(RemoveAt(s, i)) == Elements(s) - {s[i]}
    ensures forall x :: x in RemoveAt(s, i) <==> x in s && x != s[i]
  {
    assert forall x :: x in s[..i] + s[i + 1..] <==> x in s && x != s[i];
  }

  // Inserting an element again gives back the ordered set.
  lemma {:induction false} InsertRemoved(s: seq<TransportId>, i: nat)
    requires Sorted(s) && i < |s|
    ensures Insert(RemoveAt(s, i), s[i]) == s
    decreases |s|
  {
    if i == 0 {
      assert RemoveAt(s, 0) == s[1..] && s == [s[0]] + s[1..];
    } else {
      assert RemoveAt(s, i) == [s[0]] + RemoveAt(s[1..], i - 1);
      InsertRemoved(s[1..], i - 1);
      assert s == [s[0]] + s[1..];
    }
  }

  // ----- The next transport -----

  // The index of the first transport that is hinted for a section, or the length.
  function FirstHinted(hints: Hints, order: seq<TransportId>, section: int): (i: nat)
    ensures i <= |order| && (i < |order| ==> HintedFor(hints, order[i], section))
    ensures forall k :: 0 <= k < i ==> !HintedFor(hints, order[k], section)
  {
    if order == [] || HintedFor(hints, order[0], section) then 0 else 1 + FirstHinted(hints, order[1..], section)
  }

  // The same for the first one without hint, or with a hint for a previous section.
  function FirstUnbound(hints: Hints, order: seq<TransportId>, section: int): (i: nat)
    ensures i <= |order| && (i < |order| ==> Unbound(hints, order[i], section))
    ensures forall k :: 0 <= k < i ==> !Unbound(hints, order[k], section)
  {
    if order == [] || Unbound(hints, order[0], section) then 0 else 1 + FirstUnbound(hints, order[1..], section)
  }

  // The index of the transport to serialize now, or the length if there is none.
  function NextIndex(hints: Hints, order: seq<TransportId>, section: int): (i: nat)
    ensures i <= |order|
  {
    var hinted := FirstHinted(hints, order, section);
    if hinted < |order| then hinted else FirstUnbound(hints, order, section)
  }

  // ----- The plan -----

  const NOTHING := Content([], [])

  // The sections that are closed and the current one.
  datatype Layout = Layout(closed: seq<Content>, cur: Content)
  {
    function All(): seq<Content> { closed + [cur] }

    function NewSection(): Layout { Layout(closed + [cur], NOTHING) }

    function With(e: Entry): Layout { Layout(closed, WithEntry(cur, e)) }

    // All sections fit in their payload.
    predicate Fits() {
      ContentSize(cur) <= PAYLOAD_SIZE && forall c :: c in closed ==> ContentSize(c) <= PAYLOAD_SIZE
    }

    // The room left in the current section.
    function Room(): nat
      requires Fits()
    {
      PAYLOAD_SIZE - ContentSize(cur)
    }
  }

  // The sections for the top-level list, after some other ones.
  function PlanDescs(closed: seq<Content>, descs: seq<Descriptor>): Layout
    decreases |descs|
  {
    var n := FitCount(descs, PAYLOAD_SIZE - 4);
    if n == |descs| then Layout(closed, Content(descs, []))
    else
      FitsOne(descs, PAYLOAD_SIZE - 4);
      PlanDescs(closed + [Content(descs[..n], [])], descs[n..])
  }

  lemma {:induction false} PlanDescsFits(closed: seq<Content>, descs: seq<Descriptor>)
    requires forall c :: c in closed ==> ContentSize(c) <= PAYLOAD_SIZE
    ensures PlanDescs(closed, descs).Fits()
    decreases |descs|
  {
    hide FitCount, Bytes;
    var n := FitCount(descs, PAYLOAD_SIZE - 4);
    FitSize(descs, PAYLOAD_SIZE - 4);
    assert descs[..|descs|] == descs;
    if n < |descs| {
      FitsOne(descs, PAYLOAD_SIZE - 4);
      PlanDescsFits(closed + [Content(descs[..n], [])], descs[n..]);
    }
  }

  // The index after the descriptors of a transport that fit in the current section.
  function NextStart(l: Layout, dlist: seq<Descriptor>, start: nat): (next: nat)
    requires l.Fits() && l.Room() >= 6 && start <= |dlist|
    ensures start <= next <= |dlist|
  {
    start + FitCount(dlist[start..], l.Room() - 6)
  }

  lemma EntryFits(l: Layout, id: TransportId, dlist: seq<Descriptor>, start: nat)
    requires l.Fits() && l.Room() >= 6 && start <= |dlist|
    ensures l.With(Entry(id, dlist[start..NextStart(l, dlist, start)])).Fits()
    ensures l.NewSection().Fits() && Layout(l.closed, NOTHING).Fits()
    ensures l.cur == NOTHING && start < |dlist| ==> NextStart(l, dlist, start) > start
  {
    var next := NextStart(l, dlist, start);
    var e := Entry(id, dlist[start..next]);
    assert dlist[start..][..next - start] == dlist[start..next];
    FitSize(dlist[start..], l.Room() - 6);
    LoopOfConcat(l.cur.entries, [e]);
    LoopOfOne(e);
    if l.cur == NOTHING && start < |dlist| {
      FitsOne(dlist[start..], l.Room() - 6);
    }
  }

  // The sections after a transport is written from some index on.
  function PlanTransport(l: Layout, id: TransportId, dlist: seq<Descriptor>, start: nat): (r: Layout)
    requires l.Fits() && l.Room() >= 6 && start <= |dlist|
    ensures r.Fits()
    decreases |dlist| - start, l.cur != NOTHING
  {
    var next := NextStart(l, dlist, start);
    EntryFits(l, id, dlist, start);
    var l' := l.With(Entry(id, dlist[start..next]));
    if next == |dlist| then l'
    else
      EntryFits(l, id, dlist, start);
      NewSectionFits(l');
      PlanTransport(l'.NewSection(), id, dlist, next)
  }

  lemma NewSectionFits(l: Layout)
    requires l.Fits()
    ensures l.NewSection().Fits() && l.NewSection().Room() == PAYLOAD_SIZE - 4
  {
  }

  // A new section is opened before going on: the room is not enough for a transport, no
  // transport can go in this section, or the next one does not fit after other ones.
  predicate Opens(l: Layout, order: seq<TransportId>, transports: Transports, hints: Hints)
    requires l.Fits() && forall id :: id in order ==> id in transports
  {
    var i := NextIndex(hints, order, |l.closed|);
    || l.Room() < 6 || i == |order|
    || (l.cur.entries != [] && 6 + |Bytes(transports[order[i]])| > l.Room())
  }

  // How far the hint of the first transport is.
  function Gap(hints: Hints, order: seq<TransportId>, section: int): nat {
    if order != [] && order[0] in hints && hints[order[0]] > section then hints[order[0]] - section else 0
  }

  lemma OpeningEnds(l: Layout, order: seq<TransportId>, transports: Transports, hints: Hints)
    requires l.Fits() && (forall id :: id in order ==> id in transports) && order != []
    requires Opens(l, order, transports, hints)
    ensures Gap(hints, order, |l.closed| + 1) <= Gap(hints, order, |l.closed|)
    ensures l.cur == NOTHING ==> Gap(hints, order, |l.closed| + 1) < Gap(hints, order, |l.closed|)
  {
    if l.cur == NOTHING {
      NewSectionFits(Layout(l.closed, NOTHING));
      assert NextIndex(hints, order, |l.closed|) == |order|;
      assert !HintedFor(hints, order[0], |l.closed|) && !Unbound(hints, order[0], |l.closed|);
    }
  }

  // The sections after all remaining transports are written.
  function PlanLoop(l: Layout, order: seq<TransportId>, transports: Transports, hints: Hints): (r: Layout)
    requires l.Fits() && forall id :: id in order ==> id in transports
    ensures r.Fits()
    decreases |order|, Gap(hints, order, |l.closed|), l.cur != NOTHING
  {
    if order == [] then l
    else if Opens(l, order, transports, hints) then
      OpeningEnds(l, order, transports, hints);
      NewSectionFits(l);
      PlanLoop(l.NewSection(), order, transports, hints)
    else
      var i := NextIndex(hints, order, |l.closed|);
      PlanLoop(PlanTransport(l, order[i], transports[order[i]], 0), RemoveAt(order, i), transports, hints)
  }

  // The order of the transports of a table.
  predicate IsOrder(order: seq<TransportId>, transports: Transports) {
    Sorted(order) && (forall id :: id in order ==> id in transports) && forall id :: id in transports ==> id in order
  }

  // What all sections hold, in order.
  function Plan(descs: seq<Descriptor>, transports: Transports, order: seq<TransportId>,
          hints: Hints): (cs: seq<Content>)
    requires IsOrder(order, transports)
    ensures cs != [] && forall c :: c in cs ==> ContentSize(c) <= PAYLOAD_SIZE
  {
    PlanDescsFits([], descs);
    PlanLoop(PlanDescs([], descs), order, transports, hints).All()
  }

  // ----- What is always true of the plan -----

  function Merged(cs: seq<Content>): Transports {
    AddEntries(map[], AllEntries(cs))
  }

  // All transports but the remaining ones are there, with all their descriptors in order.
  ghost predicate Restored(m: Transports, transports: Transports, remaining: set<TransportId>) {
    m.Keys == transports.Keys - remaining && forall id :: id in m ==> m[id] == transports[id]
  }

  // The top-level list is there, from the first section on.
  ghost predicate HoldsDescs(cs: seq<Content>, descs: seq<Descriptor>) {
    cs != [] && AllDescs(cs) == descs && (descs != [] ==> cs[0].descs != [])
  }

  lemma ContentsWithEntry(cs: seq<Content>, c: Content, e: Entry)
    ensures forall ds :: HoldsDescs(cs + [c], ds) ==> HoldsDescs(cs + [WithEntry(c, e)], ds)
    ensures Merged(cs + [WithEntry(c, e)]) == AddEntry(Merged(cs + [c]), e)
  {
    AllOfConcat(cs, [c]);
    AllOfConcat(cs, [WithEntry(c, e)]);
    AllOfOne(c);
    AllOfOne(WithEntry(c, e));
    assert AllEntries(cs + [WithEntry(c, e)]) == AllEntries(cs + [c]) + [e];
    AddEntriesOfConcat(map[], AllEntries(cs + [c]), [e]);
    assert [e][1..] == [];
  }

  lemma ContentsWithSection(cs: seq<Content>)
    ensures forall ds :: HoldsDescs(cs, ds) ==> HoldsDescs(cs + [Content([], [])], ds)
    ensures Merged(cs + [Content([], [])]) == Merged(cs)
  {
    AllOfConcat(cs, [Content([], [])]);
    AllOfOne(Content([], []));
    assert AllEntries(cs + [Content([], [])]) == AllEntries(cs);
  }

  // The transport has entries, and they are the first ones of their sections.
  ghost predicate SplitTransport(cs: seq<Content>, id: TransportId) {
    AlwaysFirst(cs, id) && exists n :: 0 <= n < |cs| && HasEntry(cs[n], id)
  }

  // What is fixed while one transport is serialized: what there was before it, the
  // hints, the transports after it and the starts including its own.
  datatype Goal = Goal(merged: Transports, descs: seq<Descriptor>, hints: Hints, remaining: set<TransportId>,
          starts: seq<Start>)

  // The descriptors of a transport are written up to some index, not inclusive.
  ghost predicate WrittenUpTo(cs: seq<Content>, id: TransportId, dlist: seq<Descriptor>, start: nat, p: Goal) {
    && start <= |dlist| && HoldsDescs(cs, p.descs)
    && Merged(cs) == p.merged[id := dlist[..start]]
    && Scheduled(cs, p.starts, p.hints, p.remaining)
  }

  // The transport can start in the current section, or has started in a previous one.
  ghost predicate Startable(cs: seq<Content>, c: Content, id: TransportId, p: Goal) {
    && p.starts != [] && p.starts[|p.starts| - 1] == Start(id, |cs|)
    && HoldsDescs(cs + [c], p.descs) && Merged(cs + [c]) == p.merged && id !in p.merged && id !in p.remaining
    && Scheduled(cs + [c], p.starts[..|p.starts| - 1], p.hints, p.remaining + {id})
    && (HintedFor(p.hints, id, |cs|)
        || (Unbound(p.hints, id, |cs|) && forall x :: x in p.remaining ==> !HintedFor(p.hints, x, |cs|)))
  }

  ghost predicate Continued(cs: seq<Content>, c: Content, id: TransportId, dlist: seq<Descriptor>, start: nat,
          p: Goal) {
    c.entries == [] && SplitTransport(cs, id) && WrittenUpTo(cs + [c], id, dlist, start, p)
  }

  // The first piece of a transport, written in the section it was chosen for.
  lemma FirstPiece(cs: seq<Content>, c: Content, id: TransportId, dlist: seq<Descriptor>, next: nat, p: Goal)
    requires next <= |dlist| && Startable(cs, c, id, p)
    ensures WrittenUpTo(cs + [WithEntry(c, Entry(id, dlist[0..next]))], id, dlist, next, p)
    ensures c.entries == [] ==> SplitTransport(cs + [WithEntry(c, Entry(id, dlist[0..next]))], id)
  {
    hide Scheduled, HoldsDescs, Merged, HasEntry, AlwaysFirst;
    var e := Entry(id, dlist[0..next]);
    var starts := p.starts[..|p.starts| - 1];
    assert p.starts == starts + [Start(id, |cs|)] && [] + dlist[0..next] == dlist[..next];
    ContentsWithEntry(cs, c, e);
    HasEntryWith(c, e, id);
    assert (cs + [WithEntry(c, e)])[|cs|] == WithEntry(c, e);
    ScheduleStart(cs, c, starts, p.hints, p.remaining, e);
  }

  // One more piece of a transport, at the beginning of a new section.
  lemma NextPiece(cs: seq<Content>, c: Content, id: TransportId, dlist: seq<Descriptor>, start: nat, next: nat, p: Goal)
    requires start <= next <= |dlist| && Continued(cs, c, id, dlist, start, p)
    ensures WrittenUpTo(cs + [WithEntry(c, Entry(id, dlist[start..next]))], id, dlist, next, p)
    ensures SplitTransport(cs + [WithEntry(c, Entry(id, dlist[start..next]))], id)
  {
    hide Scheduled, HoldsDescs, Merged, HasEntry, AlwaysFirst;
    var e := Entry(id, dlist[start..next]);
    assert dlist[..start] + dlist[start..next] == dlist[..next];
    ContentsWithEntry(cs, c, e);
    HasEntryWith(c, e, id);
    assert (cs + [WithEntry(c, e)])[|cs|] == WithEntry(c, e);
    ScheduleContinuation(cs, c, p.starts, p.hints, p.remaining, e);
  }

  lemma NextSection(cs: seq<Content>, id: TransportId, dlist: seq<Descriptor>, start: nat, p: Goal)
    requires WrittenUpTo(cs, id, dlist, start, p) && SplitTransport(cs, id)
    ensures Continued(cs, Content([], []), id, dlist, start, p)
  {
    hide HoldsDescs, SplitTransport;
    ContentsWithSection(cs);
    ScheduleNewSection(cs, p.starts, p.hints, p.remaining);
  }

  // All transports but the remaining ones are serialized as they should be.
  ghost predicate Progress(cs: seq<Content>, transports: Transports, hints: Hints, remaining: set<TransportId>,
                           starts: seq<Start>, descs: seq<Descriptor>) {
    HoldsDescs(cs, descs) && Scheduled(cs, starts, hints, remaining) && Restored(Merged(cs), transports, remaining)
  }

  lemma ProgressSection(cs: seq<Content>, transports: Transports, hints: Hints, remaining: set<TransportId>,
                        starts: seq<Start>, descs: seq<Descriptor>)
    requires Progress(cs, transports, hints, remaining, starts, descs)
    ensures Progress(cs + [Content([], [])], transports, hints, remaining, starts, descs)
  {
    hide HoldsDescs, Scheduled, Merged;
    ContentsWithSection(cs);
    ScheduleNewSection(cs, starts, hints, remaining);
  }

  lemma {:induction false} NoEntries(cs: seq<Content>)
    requires AllEntries(cs) == []
    ensures forall n :: 0 <= n < |cs| ==> cs[n].entries == []
  {
    if cs != [] {
      NoEntries(cs[1..]);
      assert forall n :: 0 < n < |cs| ==> cs[n] == cs[1..][n - 1];
    }
  }

  lemma ProgressBegins(cs: seq<Content>, transports: Transports, hints: Hints, order: seq<TransportId>,
                       descs: seq<Descriptor>)
    requires AllEntries(cs) == [] && HoldsDescs(cs, descs) && forall id :: id in order <==> id in transports
    ensures Progress(cs, transports, hints, Elements(order), [], descs)
  {
    NoEntries(cs);
  }

  lemma ProgressStart(l: Layout, transports: Transports, hints: Hints, order: seq<TransportId>, i: nat,
                      starts: seq<Start>, descs: seq<Descriptor>)
    requires Progress(l.All(), transports, hints, Elements(order), starts, descs)
    requires Sorted(order) && i == NextIndex(hints, order, |l.closed|) < |order|
    ensures var remaining := Elements(RemoveAt(order, i));
            Startable(l.closed, l.cur, order[i], Goal(Merged(l.All()), descs, hints, remaining,
              starts + [Start(order[i], |l.closed|)]))
  {
    hide HoldsDescs, Scheduled, Merged, FirstHinted, FirstUnbound;
    assert (starts + [Start(order[i], |l.closed|)])[..|starts|] == starts;
    RemovedInOrder(order, i);
    assert Elements(RemoveAt(order, i)) + {order[i]} == Elements(order);
    NoneHinted(hints, order, |l.closed|);
  }

  lemma NoneHinted(hints: Hints, order: seq<TransportId>, section: int)
    ensures FirstHinted(hints, order, section) == |order| ==> forall x :: x in order ==> !HintedFor(hints, x, section)
  {
  }

  lemma ProgressWritten(cs: seq<Content>, transports: Transports, order: seq<TransportId>, i: nat, p: Goal)
    requires Sorted(order) && i < |order| && order[i] in transports
    requires WrittenUpTo(cs, order[i], transports[order[i]], |transports[order[i]]|, p)
    requires Restored(p.merged, transports, Elements(order)) && p.remaining == Elements(RemoveAt(order, i))
    ensures Progress(cs, transports, p.hints, p.remaining, p.starts, p.descs)
  {
    hide HoldsDescs, Scheduled, Merged;
    RemovedInOrder(order, i);
    assert transports[order[i]][..|transports[order[i]]|] == transports[order[i]];
  }

  lemma ProgressMerged(cs: seq<Content>, transports: Transports, hints: Hints, remaining: set<TransportId>,
                       starts: seq<Start>, descs: seq<Descriptor>)
    requires Progress(cs, transports, hints, remaining, starts, descs)
    ensures Restored(Merged(cs), transports, remaining)
  {
  }

  // A transport is written with all its descriptors; it goes on in new sections only when
  // it is the first one of its section.
  lemma {:induction false} TransportIsWritten(l: Layout, id: TransportId, dlist: seq<Descriptor>, start: nat, p: Goal)
    requires l.Fits() && l.Room() >= 6 && start <= |dlist|
    requires (start == 0 && Startable(l.closed, l.cur, id, p)) || Continued(l.closed, l.cur, id, dlist, start, p)
    requires l.cur.entries == [] || NextStart(l, dlist, start) == |dlist|
    ensures WrittenUpTo(PlanTransport(l, id, dlist, start).All(), id, dlist, |dlist|, p)
    decreases |dlist| - start, l.cur != NOTHING
  {
    hide Startable, Continued, WrittenUpTo, SplitTransport, NextStart;
    var next := NextStart(l, dlist, start);
    var l' := l.With(Entry(id, dlist[start..next]));
    EntryFits(l, id, dlist, start);
    if Continued(l.closed, l.cur, id, dlist, start, p) {
      NextPiece(l.closed, l.cur, id, dlist, start, next, p);
      NothingFirst(l.closed, l.cur, id, dlist, start, p);
    } else {
      FirstPiece(l.closed, l.cur, id, dlist, next, p);
    }
    if next < |dlist| {
      NextSection(l'.All(), id, dlist, next, p);
      NewSectionFits(l');
      TransportIsWritten(l'.NewSection(), id, dlist, next, p);
    }
  }

  lemma NothingFirst(cs: seq<Content>, c: Content, id: TransportId, dlist: seq<Descriptor>, start: nat, p: Goal)
    requires Continued(cs, c, id, dlist, start, p)
    ensures c.entries == []
  {
  }

  // A transport that is not pushed back fits, or is the first one of its section.
  lemma FitsOrFirst(l: Layout, order: seq<TransportId>, transports: Transports, hints: Hints)
    requires l.Fits() && (forall id :: id in order ==> id in transports) && !Opens(l, order, transports, hints)
    ensures var i := NextIndex(hints, order, |l.closed|);
            l.cur.entries == [] || NextStart(l, transports[order[i]], 0) == |transports[order[i]]|
  {
    var dlist := transports[order[NextIndex(hints, order, |l.closed|)]];
    assert dlist[0..] == dlist;
    FitAll(dlist, l.Room() - 6);
  }

  // Every transport is written once, following the schedule.
  lemma {:induction false} LoopProgress(l: Layout, order: seq<TransportId>, transports: Transports, hints: Hints,
                                        starts: seq<Start>, descs: seq<Descriptor>)
    returns (starts': seq<Start>)
    requires l.Fits() && Sorted(order) && forall id :: id in order ==> id in transports
    requires Progress(l.All(), transports, hints, Elements(order), starts, descs)
    ensures Progress(PlanLoop(l, order, transports, hints).All(), transports, hints, {}, starts', descs)
    decreases |order|, Gap(hints, order, |l.closed|), l.cur != NOTHING
  {
    hide Progress, Startable, WrittenUpTo, Restored, NextIndex, Opens, Gap, PlanTransport;
    if order == [] {
      starts' := starts;
      assert Elements(order) == {};
    } else if Opens(l, order, transports, hints) {
      OpeningEnds(l, order, transports, hints);
      NewSectionFits(l);
      ProgressSection(l.All(), transports, hints, Elements(order), starts, descs);
      starts' := LoopProgress(l.NewSection(), order, transports, hints, starts, descs);
    } else {
      var i := NextIndex(hints, order, |l.closed|);
      SomethingGoes(l, order, transports, hints);
      RemovedInOrder(order, i);
      NextProgress(l, order, transports, hints, starts, descs);
      starts' := LoopProgress(PlanTransport(l, order[i], transports[order[i]], 0), RemoveAt(order, i),
                              transports, hints,
                              starts + [Start(order[i], |l.closed|)], descs);
    }
  }

  lemma SomethingGoes(l: Layout, order: seq<TransportId>, transports: Transports, hints: Hints)
    requires l.Fits() && (forall id :: id in order ==> id in transports) && !Opens(l, order, transports, hints)
    ensures NextIndex(hints, order, |l.closed|) < |order| && l.Room() >= 6
  {
  }

  lemma NextProgress(l: Layout, order: seq<TransportId>, transports: Transports, hints: Hints,
                     starts: seq<Start>, descs: seq<Descriptor>)
    requires l.Fits() && Sorted(order) && forall id :: id in order ==> id in transports
    requires !Opens(l, order, transports, hints)
    requires NextIndex(hints, order, |l.closed|) < |order| && l.Room() >= 6
    requires Progress(l.All(), transports, hints, Elements(order), starts, descs)
    ensures var i := NextIndex(hints, order, |l.closed|);
            Progress(PlanTransport(l, order[i], transports[order[i]], 0).All(), transports, hints,
                     Elements(RemoveAt(order, i)), starts + [Start(order[i], |l.closed|)], descs)
  {
    hide Progress, Startable, WrittenUpTo, Restored, NextIndex, Opens, PlanTransport, NextStart, Merged;
    var i := NextIndex(hints, order, |l.closed|);
    var dlist := transports[order[i]];
    var p := Goal(Merged(l.All()), descs, hints, Elements(RemoveAt(order, i)), starts + [Start(order[i], |l.closed|)]);
    ProgressStart(l, transports, hints, order, i, starts, descs);
    FitsOrFirst(l, order, transports, hints);
    TransportIsWritten(l, order[i], dlist, 0, p);
    ProgressMerged(l.All(), transports, hints, Elements(order), starts, descs);
    ProgressWritten(PlanTransport(l, order[i], dlist, 0).All(), transports, order, i, p);
  }

  // ----- The plan as a whole -----

  lemma {:induction false} DescsArePlanned(closed: seq<Content>, descs: seq<Descriptor>)
    requires AllEntries(closed) == []
    ensures var l := PlanDescs(closed, descs);
            && AllDescs(l.All()) == AllDescs(closed) + descs && AllEntries(l.All()) == []
            && |l.All()| > |closed| && l.All()[..|closed|] == closed
            && (descs != [] ==> l.All()[|closed|].descs != [])
    decreases |descs|
  {
    hide FitCount;
    var n := FitCount(descs, PAYLOAD_SIZE - 4);
    if descs != [] {
      FitsOne(descs, PAYLOAD_SIZE - 4);
    }
    var first := Content(descs[..n], []);
    AllOfConcat(closed, [first]);
    AllOfOne(first);
    assert descs == descs[..n] + descs[n..];
    if n == |descs| {
      assert descs[..n] == descs;
    } else {
      DescsArePlanned(closed + [first], descs[n..]);
      var all := PlanDescs(closed, descs).All();
      assert all[..|closed|] == all[..|closed| + 1][..|closed|] == closed
          && all[|closed|] == all[..|closed| + 1][|closed|];
    }
  }

  lemma DescsAreHeld(descs: seq<Descriptor>)
    ensures var l := PlanDescs([], descs); HoldsDescs(l.All(), descs) && AllEntries(l.All()) == []
  {
    DescsArePlanned([], descs);
  }

  lemma OrderIsSorted(order: seq<TransportId>, transports: Transports)
    requires IsOrder(order, transports)
    ensures Sorted(order) && forall id :: id in order <==> id in transports
  {
  }

  // The plan holds the table, and follows the schedule.
  lemma PlanIsRight(descs: seq<Descriptor>, transports: Transports, order: seq<TransportId>, hints: Hints)
    returns (starts: seq<Start>)
    requires IsOrder(order, transports)
    ensures var cs := Plan(descs, transports, order, hints);
            HoldsDescs(cs, descs) && Merged(cs) == transports && Scheduled(cs, starts, hints, {})
  {
    hide PlanDescs, PlanLoop, Progress, Merged, Scheduled, HoldsDescs, AllDescs, AllEntries, IsOrder;
    var l := PlanDescs([], descs);
    PlanDescsFits([], descs);
    DescsAreHeld(descs);
    OrderIsSorted(order, transports);
    ProgressBegins(l.All(), transports, hints, order, descs);
    starts := LoopProgress(l, order, transports, hints, [], descs);
    ProgressEnds(PlanLoop(l, order, transports, hints).All(), transports, hints, starts, descs);
  }

  lemma ProgressEnds(cs: seq<Content>, transports: Transports, hints: Hints, starts: seq<Start>, descs: seq<Descriptor>)
    requires Progress(cs, transports, hints, {}, starts, descs)
    ensures HoldsDescs(cs, descs) && Merged(cs) == transports && Scheduled(cs, starts, hints, {})
  {
  }
}
