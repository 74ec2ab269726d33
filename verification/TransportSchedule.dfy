/**
  In which section each transport goes: what the serialization of a table
  guarantees about section hints and about transports split over sections.
 */
module TransportSchedule {
  import opened TransportFormat

  type Hints = map<TransportId, int>

  // A transport whose first entry is in a given section.
  datatype Start = Start(id: TransportId, section: nat)

  predicate HintedFor(hints: Hints, id: TransportId, section: int) {
    id in hints && hints[id] == section
  }

  // A transport without hint, or with a hint for a previous section.
  predicate Unbound(hints: Hints, id: TransportId, section: int) {
    id !in hints || hints[id] < section
  }

  predicate HasEntry(c: Content, id: TransportId) {
    exists k :: 0 <= k < |c.entries| && c.entries[k].id == id
  }

  // Every start is the first entry of its transport and every entry has a start.
  ghost predicate StartsAreFirst(cs: seq<Content>, starts: seq<Start>) {
    && (forall i :: 0 <= i < |starts| ==> starts[i].section < |cs| && HasEntry(cs[starts[i].section], starts[i].id))
    && (forall i, n :: 0 <= i < |starts| && 0 <= n < starts[i].section && n < |cs| ==> !HasEntry(cs[n], starts[i].id))
    && (forall n, k :: 0 <= n < |cs| && 0 <= k < |cs[n].entries| ==> Started(starts, cs[n].entries[k].id))
    && (forall i, j :: 0 <= i < j < |starts| ==> starts[i].id != starts[j].id && starts[i].section <= starts[j].section)
  }

  predicate Started(starts: seq<Start>, id: TransportId) {
    exists i :: 0 <= i < |starts| && starts[i].id == id
  }

  // No transport starts in a section before the one of its hint.
  ghost predicate HintsRespected(starts: seq<Start>, hints: Hints) {
    forall i :: 0 <= i < |starts| ==>
        HintedFor(hints, starts[i].id, starts[i].section) || Unbound(hints, starts[i].id, starts[i].section)
  }

  // A transport starts in a section that is not the one of its hint only when no
  // transport hinted for that section remains.
  ghost predicate HintedFirst(starts: seq<Start>, hints: Hints, remaining: set<TransportId>) {
    forall i :: 0 <= i < |starts| && !HintedFor(hints, starts[i].id, starts[i].section) ==>
      && (forall j :: i < j < |starts| ==> !HintedFor(hints, starts[j].id, starts[i].section))
      && (forall id :: id in remaining ==> !HintedFor(hints, id, starts[i].section))
  }

  // A transport that goes on in a later section is the first one of its section,
  // and no transport has two entries in one section.
  ghost predicate SplitOnlyFirst(cs: seq<Content>) {
    && (forall n, n', k :: 0 <= n < n' < |cs| && 0 <= k < |cs[n].entries| && HasEntry(cs[n'], cs[n].entries[k].id) ==>
        k == 0)
    && (forall n, k, k' :: 0 <= n < |cs| && 0 <= k < k' < |cs[n].entries| ==>
        cs[n].entries[k].id != cs[n].entries[k'].id)
  }

  // The schedule when some transports remain to be serialized.
  ghost predicate Scheduled(cs: seq<Content>, starts: seq<Start>, hints: Hints, remaining: set<TransportId>) {
    && StartsAreFirst(cs, starts) && HintsRespected(starts, hints)
    && HintedFirst(starts, hints, remaining) && SplitOnlyFirst(cs)
    && forall i :: 0 <= i < |starts| ==> starts[i].id !in remaining
  }

  // The transport, if it has entries, is always the first one of their sections.
  ghost predicate AlwaysFirst(cs: seq<Content>, id: TransportId) {
    forall n, k :: 0 <= n < |cs| && 0 <= k < |cs[n].entries| && cs[n].entries[k].id == id ==> k == 0
  }

  function WithEntry(c: Content, e: Entry): Content {
    c.(entries := c.entries + [e])
  }

  lemma HasEntryWith(c: Content, e: Entry, id: TransportId)
    ensures HasEntry(WithEntry(c, e), id) <==> HasEntry(c, id) || id == e.id
  {
    var c' := WithEntry(c, e);
    if HasEntry(c, id) {
      var k :| 0 <= k < |c.entries| && c.entries[k].id == id;
      assert c'.entries[k].id == id;
    }
    assert c'.entries[|c.entries|].id == e.id;
  }

  // A new section without entries changes nothing.
  lemma ScheduleNewSection(cs: seq<Content>, starts: seq<Start>, hints: Hints, remaining: set<TransportId>)
    requires Scheduled(cs, starts, hints, remaining)
    ensures Scheduled(cs + [Content([], [])], starts, hints, remaining)
  {
  }

  // The first entry of a transport that was chosen for the last section.
  lemma ScheduleStart(cs: seq<Content>, c: Content, starts: seq<Start>, hints: Hints, remaining: set<TransportId>,
          e: Entry)
    requires Scheduled(cs + [c], starts, hints, remaining + {e.id}) && e.id !in remaining
    requires HintedFor(hints, e.id, |cs|)
          || (Unbound(hints, e.id, |cs|) && forall id :: id in remaining ==> !HintedFor(hints, id, |cs|))
    ensures Scheduled(cs + [WithEntry(c, e)], starts + [Start(e.id, |cs|)], hints, remaining)
    ensures c.entries == [] ==> AlwaysFirst(cs + [WithEntry(c, e)], e.id)
  {
    hide HasEntry, WithEntry, StartsAreFirst, SplitOnlyFirst, AlwaysFirst;
    assert !Started(starts, e.id);
    StartStarts(cs, c, starts, e);
    NoEntryYet(cs, c, starts, e.id);
    SplitWith(cs, c, e);
    if c.entries == [] {
      OnlyEntry(cs, c, e);
    }
  }

  // Without a start, a transport has no entry.
  lemma NoEntryYet(cs: seq<Content>, c: Content, starts: seq<Start>, id: TransportId)
    requires StartsAreFirst(cs + [c], starts) && !Started(starts, id)
    ensures AlwaysFirst(cs, id) && !HasEntry(c, id)
  {
    assert (cs + [c])[|cs|] == c;
    forall n, k | 0 <= n < |cs| && 0 <= k < |cs[n].entries| ensures cs[n].entries[k].id != id {
      assert (cs + [c])[n].entries[k] == cs[n].entries[k];
    }
  }

  lemma OnlyEntry(cs: seq<Content>, c: Content, e: Entry)
    requires c.entries == [] && AlwaysFirst(cs, e.id)
    ensures AlwaysFirst(cs + [WithEntry(c, e)], e.id)
  {
  }

  lemma StartStarts(cs: seq<Content>, c: Content, starts: seq<Start>, e: Entry)
    requires StartsAreFirst(cs + [c], starts) && !Started(starts, e.id)
    ensures StartsAreFirst(cs + [WithEntry(c, e)], starts + [Start(e.id, |cs|)])
  {
    hide HasEntry, Started, WithEntry;
    var cs0, cs', starts' := cs + [c], cs + [WithEntry(c, e)], starts + [Start(e.id, |cs|)];
    forall n | 0 <= n < |cs| ensures cs'[n] == cs0[n] == cs[n] { }
    assert cs0[|cs|] == c && cs'[|cs|] == WithEntry(c, e);
    forall id ensures HasEntry(WithEntry(c, e), id) <==> HasEntry(c, id) || id == e.id {
      HasEntryWith(c, e, id);
    }
    forall i | 0 <= i < |starts| ensures starts[i].id != e.id {
      assert starts[i].id == e.id ==> Started(starts, e.id) by {
        HasStart(starts, i);
      }
    }
    forall n | 0 <= n < |cs| ensures !HasEntry(cs'[n], e.id) {
      NoEntryBefore(cs0, starts, e.id, n);
    }
    forall n, k | 0 <= n < |cs'| && 0 <= k < |cs'[n].entries| ensures Started(starts', cs'[n].entries[k].id) {
      StartedWith(starts, Start(e.id, |cs|), cs'[n].entries[k].id);
      if n == |cs| {
        EntryOf(c, e, k);
      }
    }
  }

  lemma HasStart(starts: seq<Start>, i: nat)
    requires i < |starts|
    ensures Started(starts, starts[i].id)
  {
  }

  lemma NoEntryBefore(cs: seq<Content>, starts: seq<Start>, id: TransportId, n: nat)
    requires StartsAreFirst(cs, starts) && !Started(starts, id) && n < |cs|
    ensures !HasEntry(cs[n], id)
  {
  }

  lemma EntryOf(c: Content, e: Entry, k: nat)
    requires k < |WithEntry(c, e).entries|
    ensures WithEntry(c, e).entries[k] == if k < |c.entries| then c.entries[k] else e
  {
  }

  lemma StartedWith(starts: seq<Start>, s: Start, id: TransportId)
    ensures Started(starts + [s], id) <==> Started(starts, id) || id == s.id
  {
    if Started(starts, id) {
      var i :| 0 <= i < |starts| && starts[i].id == id;
      assert (starts + [s])[i].id == id;
    }
    assert (starts + [s])[|starts|].id == s.id;
  }

  // One more entry in the last section, for a transport that is first wherever it is.
  lemma SplitWith(cs: seq<Content>, c: Content, e: Entry)
    requires SplitOnlyFirst(cs + [c]) && AlwaysFirst(cs, e.id) && !HasEntry(c, e.id)
    ensures SplitOnlyFirst(cs + [WithEntry(c, e)])
  {
    var cs0, cs' := cs + [c], cs + [WithEntry(c, e)];
    forall n | 0 <= n < |cs| ensures cs'[n] == cs0[n] == cs[n] { }
    assert cs0[|cs|] == c && cs'[|cs|] == WithEntry(c, e);
    forall n, n', k | 0 <= n < n' < |cs'| && 0 <= k < |cs'[n].entries| && HasEntry(cs'[n'], cs'[n].entries[k].id)
      ensures k == 0
    {
      HasEntryWith(c, e, cs'[n].entries[k].id);
      if n' < |cs| || HasEntry(c, cs'[n].entries[k].id) {
        assert HasEntry(cs0[n'], cs0[n].entries[k].id);
      }
    }
    forall n, k, k' | 0 <= n < |cs'| && 0 <= k < k' < |cs'[n].entries|
      ensures cs'[n].entries[k].id != cs'[n].entries[k'].id
    {
      if n < |cs| {
        assert cs0[n].entries[k].id != cs0[n].entries[k'].id;
      } else {
        EntriesDiffer(cs0, |cs|, e, k, k');
      }
    }
  }

  lemma EntriesDiffer(cs: seq<Content>, n: nat, e: Entry, k: nat, k': nat)
    requires n < |cs| && SplitOnlyFirst(cs) && !HasEntry(cs[n], e.id)
    requires k < k' < |WithEntry(cs[n], e).entries|
    ensures WithEntry(cs[n], e).entries[k].id != WithEntry(cs[n], e).entries[k'].id
  {
    if k' < |cs[n].entries| {
      assert cs[n].entries[k].id != cs[n].entries[k'].id;
    } else {
      assert HasEntry(cs[n], cs[n].entries[k].id);
    }
  }

  // The transport goes on at the beginning of a new section.
  lemma ScheduleContinuation(cs: seq<Content>, c: Content, starts: seq<Start>, hints: Hints,
          remaining: set<TransportId>, e: Entry)
    requires Scheduled(cs + [c], starts, hints, remaining)
    requires c.entries == [] && AlwaysFirst(cs, e.id) && exists n :: 0 <= n < |cs| && HasEntry(cs[n], e.id)
    ensures Scheduled(cs + [WithEntry(c, e)], starts, hints, remaining)
    ensures AlwaysFirst(cs + [WithEntry(c, e)], e.id)
  {
    hide SplitOnlyFirst;
    var cs0, cs' := cs + [c], cs + [WithEntry(c, e)];
    forall n | 0 <= n < |cs| ensures cs'[n] == cs0[n] == cs[n] { }
    SplitWith(cs, c, e);
    OnlyEntry(cs, c, e);
    hide AlwaysFirst;
    forall id ensures HasEntry(WithEntry(c, e), id) <==> HasEntry(c, id) || id == e.id {
      HasEntryWith(c, e, id);
    }
    var n :| 0 <= n < |cs| && HasEntry(cs0[n], e.id);
    assert Started(starts, e.id);
  }
}
