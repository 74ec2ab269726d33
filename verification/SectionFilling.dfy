/**
  How the sections of a table that lists transport streams are filled
  (tsAbstractTransportListTable.cpp): why each section is followed by another one, and
  which transport comes next, said of what the sections hold.
 */
module SectionFilling {
  import opened DescriptorLists
  import opened Sections
  import opened TransportFormat
  import opened TransportSchedule
  import opened SectionPlan

  // The bytes that are left in the payload of a section.
  function Left(c: Content): int {
    1012 - ContentSize(c)
  }

  // The transports that are not in some sections.
  function Pending(cs: seq<Content>, transports: Transports): set<TransportId> {
    transports.Keys - Merged(cs).Keys
  }

  // The first transport, in the order of ids, that is hinted for a section or else that has
  // no hint or a hint for a previous section.
  ghost predicate IsNext(hints: Hints, pending: set<TransportId>, section: int, id: TransportId) {
    && id in pending
    && if exists x :: x in pending && HintedFor(hints, x, section) then
         && HintedFor(hints, id, section)
         && forall x :: x in pending && HintedFor(hints, x, section) ==> id.Normalized() <= x.Normalized()
       else
         && Unbound(hints, id, section)
         && forall x :: x in pending && Unbound(hints, x, section) ==> id.Normalized() <= x.Normalized()
  }

  // Some transports are pending, and all of them are hinted for later sections, or the next
  // one does not fit in what is left.
  ghost predicate NothingFits(hints: Hints, pending: set<TransportId>, section: int, transports: Transports,
          left: int) {
    && pending != {} && pending <= transports.Keys
    && ((forall x :: x in pending ==> x in hints && hints[x] > section)
        || exists id :: IsNext(hints, pending, section, id) && id in transports && 6 + |Bytes(transports[id])| > left)
  }

  // The last transport of some sections does not have all its descriptors there.
  predicate Unfinished(cs: seq<Content>, transports: Transports)
    requires cs != []
  {
    var es := cs[|cs| - 1].entries;
    && es != [] && es[|es| - 1].id in transports && es[|es| - 1].id in Merged(cs)
    && Merged(cs)[es[|es| - 1].id] != transports[es[|es| - 1].id]
  }

  // Why a section is followed by another one: the next descriptor of the top-level list
  // does not fit, the last transport goes on as its next descriptor does not fit, or no
  // other transport can go in this section.
  ghost predicate FullAt(cs: seq<Content>, n: nat, transports: Transports, hints: Hints)
    requires n + 1 < |cs|
  {
    var c, next, upTo := cs[n], cs[n + 1], cs[..n + 1];
    if next.descs != [] then c.entries == [] && |next.descs[0]| > Left(c)
    else if Unfinished(upTo, transports) then
      && next.entries != [] && next.entries[0].id == c.entries[|c.entries| - 1].id
      && next.entries[0].descs != [] && |next.entries[0].descs[0]| > Left(c)
    else NothingFits(hints, Pending(upTo, transports), n, transports, Left(c))
  }

  // The sections up to entry k of section n, without it.
  function Before(cs: seq<Content>, n: nat, k: nat): seq<Content>
    requires n < |cs| && k <= |cs[n].entries|
  {
    cs[..n] + [Content(cs[n].descs, cs[n].entries[..k])]
  }

  // A transport that begins in a section is the next one.
  ghost predicate ChosenAt(cs: seq<Content>, n: nat, k: nat, transports: Transports, hints: Hints)
    requires n < |cs| && k < |cs[n].entries|
  {
    var pending, id := Pending(Before(cs, n, k), transports), cs[n].entries[k].id;
    id in pending ==> IsNext(hints, pending, n, id)
  }

  ghost predicate Full(cs: seq<Content>, m: nat, transports: Transports, hints: Hints)
    requires m < |cs|
  {
    forall n :: 0 <= n < m ==> FullAt(cs, n, transports, hints)
  }

  ghost predicate Chosen(cs: seq<Content>, transports: Transports, hints: Hints) {
    forall n, k :: 0 <= n < |cs| && 0 <= k < |cs[n].entries| ==> ChosenAt(cs, n, k, transports, hints)
  }

  // Sections are filled, and transports are chosen in the right order.
  ghost predicate Filled(l: Layout, transports: Transports, hints: Hints) {
    Full(l.All(), |l.closed|, transports, hints) && Chosen(l.All(), transports, hints)
  }

  // ----- One more entry -----

  // The entry is the next transport, or goes on with one.
  ghost predicate EntryIsRight(l: Layout, e: Entry, transports: Transports, hints: Hints) {
    var pending := Pending(l.All(), transports);
    e.id in pending ==> IsNext(hints, pending, |l.closed|, e.id)
  }

  lemma ChosenWith(l: Layout, e: Entry, transports: Transports, hints: Hints)
    requires Chosen(l.All(), transports, hints) && EntryIsRight(l, e, transports, hints)
    ensures Chosen(l.With(e).All(), transports, hints)
  {
    hide Merged, IsNext;
    var cs, cs' := l.All(), l.With(e).All();
    forall n, k | 0 <= n < |cs'| && 0 <= k < |cs'[n].entries| ensures ChosenAt(cs', n, k, transports, hints) {
      assert cs[..n] == cs'[..n];
      if n == |l.closed| && k == |l.cur.entries| {
        assert cs'[n].entries[..k] == l.cur.entries;
        assert Before(cs', n, k) == cs;
      } else {
        assert n < |l.closed| ==> cs[n] == cs'[n];
        assert cs'[n].entries[..k] == cs[n].entries[..k] && Before(cs', n, k) == Before(cs, n, k);
        assert ChosenAt(cs, n, k, transports, hints);
      }
    }
  }

  lemma ChosenNew(l: Layout, transports: Transports, hints: Hints)
    requires Chosen(l.All(), transports, hints)
    ensures Chosen(l.NewSection().All(), transports, hints)
  {
    hide Merged, IsNext;
    var cs, cs' := l.All(), l.NewSection().All();
    forall n, k | 0 <= n < |cs'| && 0 <= k < |cs'[n].entries| ensures ChosenAt(cs', n, k, transports, hints) {
      assert cs[..n] == cs'[..n] && cs[n] == cs'[n] && Before(cs', n, k) == Before(cs, n, k);
      assert ChosenAt(cs, n, k, transports, hints);
    }
  }

  // What holds of closed sections does not depend on the ones after the next.
  lemma SameFull(cs: seq<Content>, cs': seq<Content>, n: nat, transports: Transports, hints: Hints)
    requires n + 1 < |cs| && n + 1 < |cs'| && cs[..n + 2] == cs'[..n + 2]
    ensures FullAt(cs, n, transports, hints) <==> FullAt(cs', n, transports, hints)
  {
    assert cs[n] == cs[..n + 2][n] && cs'[n] == cs'[..n + 2][n];
    assert cs[n + 1] == cs[..n + 2][n + 1] && cs'[n + 1] == cs'[..n + 2][n + 1];
    assert cs[..n + 1] == cs[..n + 2][..n + 1] && cs'[..n + 1] == cs'[..n + 2][..n + 1];
    hide Merged, Unfinished, NothingFits, Left;
  }

  lemma FullWith(l: Layout, e: Entry, transports: Transports, hints: Hints)
    requires Full(l.All(), |l.closed|, transports, hints)
    ensures Full(l.With(e).All(), |l.closed|, transports, hints)
  {
    hide Merged, Unfinished, NothingFits, Left;
    var cs, cs' := l.All(), l.With(e).All();
    forall n | 0 <= n < |l.closed| ensures FullAt(cs', n, transports, hints) {
      assert FullAt(cs, n, transports, hints);
      if n + 1 < |l.closed| {
        assert cs[..n + 2] == cs'[..n + 2];
        SameFull(cs, cs', n, transports, hints);
      } else {
        assert cs[..n + 1] == cs'[..n + 1] && cs[n] == cs'[n];
        assert cs[n + 1] == l.cur && cs'[n + 1] == WithEntry(l.cur, e);
      }
    }
  }

  // The first entry of a section goes on with the last transport of the section before.
  lemma FullGoesOn(l: Layout, e: Entry, transports: Transports, hints: Hints)
    requires l.cur == NOTHING && l.closed != [] && Full(l.All(), |l.closed| - 1, transports, hints)
    requires Unfinished(l.closed, transports)
    requires var c := l.closed[|l.closed| - 1];
             e.id == c.entries[|c.entries| - 1].id && e.descs != [] && |e.descs[0]| > Left(c)
    ensures Full(l.With(e).All(), |l.closed|, transports, hints)
  {
    hide Merged, Unfinished, NothingFits, Left;
    var cs, cs' := l.All(), l.With(e).All();
    forall n | 0 <= n < |l.closed| ensures FullAt(cs', n, transports, hints) {
      if n + 1 < |l.closed| {
        assert FullAt(cs, n, transports, hints);
        assert cs[..n + 2] == cs'[..n + 2];
        SameFull(cs, cs', n, transports, hints);
      } else {
        assert cs'[..n + 1] == l.closed && cs'[n + 1] == WithEntry(NOTHING, e);
      }
    }
  }

  // ----- One transport -----

  // A transport has its first descriptors in the closed sections, at the end of the last
  // one, where the next descriptor does not fit.
  ghost predicate GoesOn(l: Layout, id: TransportId, dlist: seq<Descriptor>, start: nat) {
    && l.cur == NOTHING && l.closed != [] && start < |dlist|
    && var c := l.closed[|l.closed| - 1];
       && c.entries != [] && c.entries[|c.entries| - 1].id == id && |dlist[start]| > Left(c)
  }

  lemma DescriptorDoesNotFit(l: Layout, id: TransportId, dlist: seq<Descriptor>, start: nat)
    requires l.Fits() && l.Room() >= 6 && start <= |dlist| && NextStart(l, dlist, start) < |dlist|
    ensures var next := NextStart(l, dlist, start);
            |dlist[next]| > Left(l.With(Entry(id, dlist[start..next])).cur)
  {
    var next, room := NextStart(l, dlist, start), l.Room() - 6;
    var rest, n := dlist[start..], NextStart(l, dlist, start) - start;
    FitIsLongest(rest, room, n + 1);
    assert rest[..n + 1] == rest[..n] + [dlist[next]] && rest[..n] == dlist[start..next];
    BytesOfConcat(rest[..n], [dlist[next]]);
    BytesOfOne(dlist[next]);
    LoopOfConcat(l.cur.entries, [Entry(id, dlist[start..next])]);
    LoopOfOne(Entry(id, dlist[start..next]));
  }

  // All pieces of a transport are as long as possible, and follow each other.
  lemma {:induction false} TransportFills(l: Layout, id: TransportId, start: nat, going: bool, transports: Transports,
                                          hints: Hints)
    requires id in transports && l.Fits() && l.Room() >= 6 && start <= |transports[id]|
    requires Chosen(l.All(), transports, hints)
    requires !going ==> start == 0 && Full(l.All(), |l.closed|, transports, hints)
    requires !going ==> IsNext(hints, Pending(l.All(), transports), |l.closed|, id)
    requires going ==> GoesOn(l, id, transports[id], start) && Full(l.All(), |l.closed| - 1, transports, hints)
    requires going ==> id in Merged(l.All()) && Merged(l.All())[id] == transports[id][..start]
    ensures Filled(PlanTransport(l, id, transports[id], start), transports, hints)
    decreases |transports[id]| - start, l.cur != NOTHING
  {
    hide Merged, Full, Chosen, Left, NextStart, IsNext;
    var dlist := transports[id];
    var next := NextStart(l, dlist, start);
    var e := Entry(id, dlist[start..next]);
    var l' := l.With(e);
    EntryFits(l, id, dlist, start);
    ChosenWith(l, e, transports, hints);
    ContentsWithEntry(l.closed, l.cur, e);
    if going {
      GoingIsUnfinished(l, id, start, transports);
      assert e.descs[0] == dlist[start];
      FullGoesOn(l, e, transports, hints);
    } else {
      FullWith(l, e, transports, hints);
      NextIsPending(hints, Pending(l.All(), transports), |l.closed|, id);
    }
    if next < |dlist| {
      NewSectionFits(l');
      DescriptorDoesNotFit(l, id, dlist, start);
      ChosenNew(l', transports, hints);
      FullNew(l', transports, hints);
      ContentsWithSection(l'.All());
      assert dlist[..start] + dlist[start..next] == dlist[..next];
      assert [] + dlist[0..next] == dlist[..next];
      TransportFills(l'.NewSection(), id, next, true, transports, hints);
    }
  }

  lemma GoingIsUnfinished(l: Layout, id: TransportId, start: nat, transports: Transports)
    requires id in transports && GoesOn(l, id, transports[id], start)
    requires id in Merged(l.All()) && Merged(l.All())[id] == transports[id][..start]
    ensures Unfinished(l.closed, transports)
  {
    hide Merged, Left;
    ContentsWithSection(l.closed);
    assert |transports[id][..start]| < |transports[id]|;
  }

  lemma FullNew(l: Layout, transports: Transports, hints: Hints)
    requires Full(l.All(), |l.closed|, transports, hints)
    ensures Full(l.NewSection().All(), |l.closed|, transports, hints)
  {
    hide FullAt;
    var cs, cs' := l.All(), l.NewSection().All();
    forall n | 0 <= n < |l.closed| ensures FullAt(cs', n, transports, hints) {
      assert cs[..n + 2] == cs'[..n + 2];
      SameFull(cs, cs', n, transports, hints);
    }
  }

  lemma NextIsPending(hints: Hints, pending: set<TransportId>, section: int, id: TransportId)
    ensures IsNext(hints, pending, section, id) ==> id in pending
  {
  }

  // ----- All transports -----

  // The first transport of the plan is the next one.
  lemma NextIndexIsNext(hints: Hints, order: seq<TransportId>, section: int)
    requires Sorted(order)
    ensures var i := NextIndex(hints, order, section);
            if i < |order| then IsNext(hints, Elements(order), section, order[i])
            else forall x :: x in Elements(order) ==> x in hints && hints[x] > section
  {
    var hinted, unbound := FirstHinted(hints, order, section), FirstUnbound(hints, order, section);
    if hinted < |order| {
      assert order[hinted] in Elements(order);
    } else {
      NoneHinted(hints, order, section);
      if unbound < |order| {
        assert order[unbound] in Elements(order);
      }
    }
  }

  lemma PendingIsOrder(cs: seq<Content>, transports: Transports, order: seq<TransportId>)
    requires Restored(Merged(cs), transports, Elements(order)) && forall id :: id in order ==> id in transports
    ensures Pending(cs, transports) == Elements(order)
  {
    hide Merged;
  }

  // A new section is opened only when nothing fits.
  lemma OpensWhenFull(l: Layout, order: seq<TransportId>, transports: Transports, hints: Hints)
    requires l.Fits() && Sorted(order) && order != [] && forall id :: id in order ==> id in transports
    requires Restored(Merged(l.All()), transports, Elements(order)) && Opens(l, order, transports, hints)
    requires Filled(l, transports, hints)
    ensures Filled(l.NewSection(), transports, hints)
  {
    hide Merged, Restored, IsNext, NextIndex, FullAt, ChosenAt;
    var n, cs := |l.closed|, l.NewSection().All();
    ChosenNew(l, transports, hints);
    FullNew(l, transports, hints);
    NextIndexIsNext(hints, order, n);
    PendingIsOrder(l.All(), transports, order);
    AllFinished(l.All(), transports, order);
    assert order[0] in Elements(order);
    assert NothingFits(hints, Elements(order), n, transports, Left(l.cur));
    hide NothingFits, Opens, Left;
    LastIsFull(l, transports, hints);
  }

  lemma AllFinished(cs: seq<Content>, transports: Transports, order: seq<TransportId>)
    requires cs != [] && Restored(Merged(cs), transports, Elements(order))
    ensures !Unfinished(cs, transports)
  {
    hide Merged;
  }

  lemma LastIsFull(l: Layout, transports: Transports, hints: Hints)
    requires !Unfinished(l.All(), transports)
    requires NothingFits(hints, Pending(l.All(), transports), |l.closed|, transports, Left(l.cur))
    ensures FullAt(l.NewSection().All(), |l.closed|, transports, hints)
  {
    hide Unfinished, NothingFits, Left;
    assert l.NewSection().All()[..|l.closed| + 1] == l.All();
  }

  lemma {:induction false} LoopFills(l: Layout, order: seq<TransportId>, transports: Transports, hints: Hints,
                                     starts: seq<Start>, descs: seq<Descriptor>)
    requires l.Fits() && Sorted(order) && forall id :: id in order ==> id in transports
    requires Progress(l.All(), transports, hints, Elements(order), starts, descs) && Filled(l, transports, hints)
    ensures Filled(PlanLoop(l, order, transports, hints), transports, hints)
    decreases |order|, Gap(hints, order, |l.closed|), l.cur != NOTHING
  {
    hide Progress, Restored, NextIndex, Opens, Gap, PlanTransport, Filled, Merged;
    ProgressMerged(l.All(), transports, hints, Elements(order), starts, descs);
    if order == [] {
    } else if Opens(l, order, transports, hints) {
      OpeningEnds(l, order, transports, hints);
      NewSectionFits(l);
      ProgressSection(l.All(), transports, hints, Elements(order), starts, descs);
      OpensWhenFull(l, order, transports, hints);
      LoopFills(l.NewSection(), order, transports, hints, starts, descs);
    } else {
      var i := NextIndex(hints, order, |l.closed|);
      SomethingGoes(l, order, transports, hints);
      RemovedInOrder(order, i);
      NextProgress(l, order, transports, hints, starts, descs);
      NextFills(l, order, transports, hints);
      LoopFills(PlanTransport(l, order[i], transports[order[i]], 0), RemoveAt(order, i), transports, hints,
                starts + [Start(order[i], |l.closed|)], descs);
    }
  }

  lemma NextFills(l: Layout, order: seq<TransportId>, transports: Transports, hints: Hints)
    requires l.Fits() && Sorted(order) && forall id :: id in order ==> id in transports
    requires NextIndex(hints, order, |l.closed|) < |order| && l.Room() >= 6
    requires Restored(Merged(l.All()), transports, Elements(order)) && Filled(l, transports, hints)
    ensures var id := order[NextIndex(hints, order, |l.closed|)];
            Filled(PlanTransport(l, id, transports[id], 0), transports, hints)
  {
    hide Restored, NextIndex, Merged, Full, Chosen, IsNext;
    var i := NextIndex(hints, order, |l.closed|);
    NextIndexIsNext(hints, order, |l.closed|);
    PendingIsOrder(l.All(), transports, order);
    TransportFills(l, order[i], 0, false, transports, hints);
  }

  // ----- The top-level list -----

  lemma {:induction false} DescsFill(closed: seq<Content>, descs: seq<Descriptor>, transports: Transports, hints: Hints)
    requires forall c :: c in closed ==> c.entries == []
    requires closed != [] ==> descs != [] && |descs[0]| > Left(closed[|closed| - 1])
    requires closed != [] ==> Full(closed, |closed| - 1, transports, hints)
    ensures Filled(PlanDescs(closed, descs), transports, hints)
    decreases |descs|
  {
    hide FitCount, Merged, Unfinished, NothingFits, Left;
    var n := FitCount(descs, PAYLOAD_SIZE - 4);
    var part := Content(if n == |descs| then descs else descs[..n], []);
    if descs != [] {
      FitsOne(descs, PAYLOAD_SIZE - 4);
    }
    FullDescs(closed, part, transports, hints);
    if n < |descs| {
      NextDescriptorDoesNotFit(descs, n);
      DescsFill(closed + [part], descs[n..], transports, hints);
    } else {
      assert Chosen(closed + [part], transports, hints);
    }
  }

  lemma FullDescs(closed: seq<Content>, part: Content, transports: Transports, hints: Hints)
    requires (forall c :: c in closed ==> c.entries == []) && (closed != [] ==> part.descs != [])
    requires closed != [] ==>
            |part.descs[0]| > Left(closed[|closed| - 1]) && Full(closed, |closed| - 1, transports, hints)
    ensures Full(closed + [part], |closed|, transports, hints)
  {
    hide Merged, Unfinished, NothingFits, Left;
    var cs := closed + [part];
    forall n | 0 <= n < |closed| ensures FullAt(cs, n, transports, hints) {
      if n + 1 < |closed| {
        assert FullAt(closed, n, transports, hints);
        assert closed[..n + 2] == cs[..n + 2];
        SameFull(closed, cs, n, transports, hints);
      } else {
        assert cs[n] == closed[n] && cs[n + 1] == part;
      }
    }
  }

  lemma NextDescriptorDoesNotFit(descs: seq<Descriptor>, n: nat)
    requires n == FitCount(descs, PAYLOAD_SIZE - 4) < |descs|
    ensures |descs[n]| > Left(Content(descs[..n], []))
  {
    FitIsLongest(descs, PAYLOAD_SIZE - 4, n + 1);
    assert descs[..n + 1] == descs[..n] + [descs[n]];
    BytesOfConcat(descs[..n], [descs[n]]);
    BytesOfOne(descs[n]);
  }

  // ----- The plan -----

  // Every section of the plan is full before another one is opened, and the transports
  // come in the order of hints and ids.
  lemma PlanIsFull(descs: seq<Descriptor>, transports: Transports, order: seq<TransportId>, hints: Hints)
    requires IsOrder(order, transports)
    ensures var cs := Plan(descs, transports, order, hints);
            Full(cs, |cs| - 1, transports, hints) && Chosen(cs, transports, hints)
  {
    hide PlanDescs, PlanLoop, Progress, Merged, HoldsDescs, AllEntries, IsOrder, Full, Chosen;
    var l := PlanDescs([], descs);
    PlanDescsFits([], descs);
    DescsAreHeld(descs);
    OrderIsSorted(order, transports);
    ProgressBegins(l.All(), transports, hints, order, descs);
    DescsFill([], descs, transports, hints);
    LoopFills(l, order, transports, hints, [], descs);
  }
}
