/**
  Tables that hold one list of descriptors (tsAbstractDescriptorsTable.cpp): the
  packing of the list into sections, and their deserialization.
 */
module DescriptorsTable {
  import opened Octets
  import opened DescriptorLists
  import opened Sections

  type Part = seq<Descriptor>

  // The list that some parts make.
  function Joined(parts: seq<Part>): seq<Descriptor> {
    if parts == [] then [] else parts[0] + Joined(parts[1..])
  }

  // A split of a list, in order, into parts that fit in a section.
  predicate IsSplit(parts: seq<Part>, ds: seq<Descriptor>) {
    Joined(parts) == ds && forall i :: 0 <= i < |parts| ==> |Bytes(parts[i])| <= 1012
  }

  // As many descriptors as possible in each section.
  function Greedy(ds: seq<Descriptor>): seq<Part>
    decreases |ds|
  {
    if ds == [] then []
    else
      FitsOne(ds, PAYLOAD_SIZE);
      var n := FitCount(ds, PAYLOAD_SIZE);
      [ds[..n]] + Greedy(ds[n..])
  }

  lemma {:induction false} GreedyIsSplit(ds: seq<Descriptor>)
    ensures IsSplit(Greedy(ds), ds) && forall i :: 0 <= i < |Greedy(ds)| ==> Greedy(ds)[i] != []
    decreases |ds|
  {
    hide FitCount, Bytes;
    if ds != [] {
      FitsOne(ds, PAYLOAD_SIZE);
      var n := FitCount(ds, PAYLOAD_SIZE);
      FitSize(ds, PAYLOAD_SIZE);
      GreedyIsSplit(ds[n..]);
      assert ds == ds[..n] + ds[n..];
      assert Greedy(ds)[1..] == Greedy(ds[n..]);
    }
  }

  // A split of a list gives a split of what follows its first descriptors, which
  // does not have more parts.
  lemma {:induction false} SplitOfRest(parts: seq<Part>, ds: seq<Descriptor>, n: nat) returns (rest: seq<Part>)
    requires IsSplit(parts, ds) && n <= |ds|
    ensures IsSplit(rest, ds[n..]) && |rest| <= |parts|
    decreases |parts|
  {
    hide Bytes;
    if parts == [] {
      rest := [];
    } else if n <= |parts[0]| {
      rest := [parts[0][n..]] + parts[1..];
      BytesOfRest(parts[0], n);
      assert rest[1..] == parts[1..];
    } else {
      assert ds[n..] == Joined(parts[1..])[n - |parts[0]|..];
      rest := SplitOfRest(parts[1..], Joined(parts[1..]), n - |parts[0]|);
    }
  }

  lemma BytesOfRest(ds: seq<Descriptor>, n: nat)
    requires n <= |ds|
    ensures |Bytes(ds[n..])| <= |Bytes(ds)|
  {
    BytesOfConcat(ds[..n], ds[n..]);
    assert ds == ds[..n] + ds[n..];
  }

  // No split has fewer parts.
  lemma {:induction false} GreedyIsShortest(ds: seq<Descriptor>, parts: seq<Part>)
    requires IsSplit(parts, ds)
    ensures |Greedy(ds)| <= |parts|
    decreases |ds|
  {
    hide FitCount, Bytes;
    if ds != [] {
      FitsOne(ds, PAYLOAD_SIZE);
      var n, m := FitCount(ds, PAYLOAD_SIZE), |parts[0]|;
      assert ds[..m] == parts[0] && ds[m..] == Joined(parts[1..]);
      FitIsLongest(ds, PAYLOAD_SIZE, m);
      var rest := SplitOfRest(parts[1..], ds[m..], n - m);
      assert ds[m..][n - m..] == ds[n..];
      GreedyIsShortest(ds[n..], rest);
    }
  }

  // ----- Tables -----

  datatype Table = Table(valid: bool, tableId: Byte, tidExt: UInt16, version: Byte, isCurrent: bool,
          descs: seq<Descriptor>)

  function SectionOf(t: Table, part: Part, n: nat): Section
    requires n < 256
  {
    Section(t.tableId, t.tidExt, t.version, t.isCurrent, n, Bytes(part))
  }

  // The parts of a list that make sections: at least one, at most 256.
  function Parts(ds: seq<Descriptor>): (parts: seq<Part>)
    ensures 1 <= |parts| <= 256
  {
    var all := Greedy(ds);
    if ds == [] then [[]] else if |all| <= 256 then all else all[..256]
  }

  // The sections of a table: none when its version is not possible.
  function Sectioned(t: Table, parts: seq<Part>): (sections: seq<Section>)
    requires |parts| <= 256
    ensures |sections| == if t.version <= MAX_VERSION then |parts| else 0
  {
    if t.version > MAX_VERSION then [] else seq(|parts|, i requires 0 <= i < |parts| => SectionOf(t, parts[i], i))
  }

  // What reading sections one after the other makes of a table.
  function ReadSections(t: Table, sections: seq<Section>): Table
    decreases |sections|
  {
    if sections == [] then t.(valid := true)
    else
      var s := sections[0];
      ReadSections(t.(version := s.version, isCurrent := s.isCurrent, tidExt := s.tidExt,
                      descs := t.descs + ParseDescriptors(s.payload)), sections[1..])
  }

  function Deserialized(t: Table, sections: seq<Section>): Table {
    var cleared := t.(valid := false, descs := []);
    if sections == [] || sections[0].tableId != t.tableId then cleared else ReadSections(cleared, sections)
  }

  lemma {:induction false} ReadAllSections(t: Table, t0: Table, parts: seq<Part>, from: nat)
    requires from <= |parts| <= 256 && t0.tableId == t.tableId && parts != [] && t.version <= MAX_VERSION
    requires from > 0 ==> t0.tidExt == t.tidExt && t0.version == t.version && t0.isCurrent == t.isCurrent
    ensures ReadSections(t0, Sectioned(t, parts)[from..])
         == Table(true, t.tableId, t.tidExt, t.version, t.isCurrent, t0.descs + Joined(parts[from..]))
    decreases |parts| - from
  {
    hide Bytes, ParseDescriptors;
    if from < |parts| {
      ParseBytes(parts[from]);
      var sections := Sectioned(t, parts);
      var t1 := Table(t0.valid, t.tableId, t.tidExt, t.version, t.isCurrent, t0.descs + parts[from]);
      ReadAllSections(t, t1, parts, from + 1);
      assert sections[from..][1..] == sections[from + 1..] && parts[from..][1..] == parts[from + 1..];
    }
  }

  lemma {:induction false} JoinedOfConcat(a: seq<Part>, b: seq<Part>)
    ensures Joined(a + b) == Joined(a) + Joined(b)
  {
    if a == [] {
      assert a + b == b;
    } else {
      assert (a + b)[1..] == a[1..] + b;
      JoinedOfConcat(a[1..], b);
    }
  }

  // The table is restored if and only if the object has its table id, its version is
  // possible and the list can be split into at most 256 parts. Otherwise, the object is not
  // valid, or the descriptors of the other sections are lost.
  lemma RoundTrip(t: Table, t0: Table)
    requires t.valid
    ensures var r := Deserialized(t0, Sectioned(t, Parts(t.descs)));
            var read := t0.tableId == t.tableId && t.version <= 31;
            && (read ==> r == t.(descs := Joined(Parts(t.descs))) && r.descs <= t.descs)
            && (!read ==> r == t0.(valid := false, descs := []))
            && (r == t <==> read && exists parts :: IsSplit(parts, t.descs) && |parts| <= 256)
  {
    hide Sectioned, IsSplit, Bytes, Greedy, ReadSections, Parts;
    GreedyIsSplit(t.descs);
    SplitJoins(Greedy(t.descs), t.descs);
    PartsOfGreedy(t.descs);
    if t.version <= MAX_VERSION && t0.tableId == t.tableId {
      ReadParts(t, t0);
    } else if t.version <= MAX_VERSION {
      OtherTableId(t, t0);
    }
    if exists ps :: IsSplit(ps, t.descs) && |ps| <= 256 {
      var ps :| IsSplit(ps, t.descs) && |ps| <= 256;
      GreedyIsShortest(t.descs, ps);
    }
  }

  lemma ReadParts(t: Table, t0: Table)
    requires t.valid && t0.tableId == t.tableId && t.version <= MAX_VERSION
    ensures Deserialized(t0, Sectioned(t, Parts(t.descs))) == t.(descs := Joined(Parts(t.descs)))
  {
    hide Bytes, Greedy, Parts, ReadSections;
    var parts := Parts(t.descs);
    var sections := Sectioned(t, parts);
    assert sections[0].tableId == t.tableId && sections[0..] == sections && parts[0..] == parts;
    ReadAllSections(t, t0.(valid := false, descs := []), parts, 0);
  }

  lemma OtherTableId(t: Table, t0: Table)
    requires t0.tableId != t.tableId && t.version <= MAX_VERSION
    ensures Deserialized(t0, Sectioned(t, Parts(t.descs))) == t0.(valid := false, descs := [])
  {
    hide Bytes, Greedy, Parts;
    assert Sectioned(t, Parts(t.descs))[0].tableId == t.tableId;
  }

  lemma SplitJoins(parts: seq<Part>, ds: seq<Descriptor>)
    requires IsSplit(parts, ds)
    ensures Joined(parts) == ds
  {
  }

  lemma PartsOfGreedy(ds: seq<Descriptor>)
    requires Joined(Greedy(ds)) == ds && forall i :: 0 <= i < |Greedy(ds)| ==> Greedy(ds)[i] != []
    ensures Joined(Parts(ds)) <= ds && (Joined(Parts(ds)) == ds <==> |Greedy(ds)| <= 256)
  {
    var all := Greedy(ds);
    if ds != [] && |all| > 256 {
      hide Greedy;
      JoinedOfConcat(all[..256], all[256..]);
      assert all == all[..256] + all[256..];
      assert Joined(all[256..]) != [] by {
        assert all[256..][0] != [];
      }
    }
  }

  class DescriptorsTable {
    var isValid: bool
    const tableId: Byte
    var tidExt: UInt16
    var version: Byte
    var isCurrent: bool
    var descs: seq<Descriptor>

    function AsTable(): Table
      reads this
    {
      Table(isValid, tableId, tidExt, version, isCurrent, descs)
    }

    constructor (id: Byte, ext: UInt16, version_: Byte, current: bool)
      ensures AsTable() == Table(true, id, ext, version_, current, [])
    {
      isValid, tableId, tidExt, version, isCurrent, descs := true, id, ext, version_, current, [];
    }

    method Serialize() returns (sections: seq<Section>)
      ensures sections == if isValid then Sectioned(AsTable(), Parts(descs)) else []
    {
      hide Bytes, FitCount, Greedy, Parts, Sectioned;
      sections := [];
      if !isValid {
        return;
      }
      var payload := new Byte[PAYLOAD_SIZE];
      var sectionNumber, startIndex := 0, 0;
      ghost var parts: seq<Part> := [];
      PackBegins(AsTable(), descs);
      while (sectionNumber == 0 || startIndex < |descs|) && sectionNumber < 256
        invariant 0 <= startIndex <= |descs| && 0 <= sectionNumber == |parts| <= 256
        invariant Packed(descs, startIndex, parts) && sections == Sectioned(AsTable(), parts)
        decreases 256 - sectionNumber
      {
        ghost var start := startIndex;
        sections, startIndex := AddSection(payload, sections, sectionNumber, startIndex, parts);
        PackOne(descs, start, parts);
        parts := parts + [descs[start..startIndex]];
        sectionNumber := sectionNumber + 1;
      }
      PackEnds(descs, startIndex, parts);
    }

    // The body of the loop: one section, with as many descriptors as possible.
    method AddSection(payload: array<Byte>, sections: seq<Section>, sectionNumber: nat, startIndex: nat,
            ghost parts: seq<Part>)
      returns (sections': seq<Section>, next: nat)
      requires payload.Length == PAYLOAD_SIZE && startIndex <= |descs| && sectionNumber == |parts| < 256
      requires sections == Sectioned(AsTable(), parts)
      modifies payload
      ensures next == startIndex + FitCount(descs[startIndex..], PAYLOAD_SIZE) <= |descs|
      ensures sections' == Sectioned(AsTable(), parts + [descs[startIndex..next]])
    {
      hide Bytes, FitCount;
      var data, remain;
      next, data, remain := DescriptorLists.Serialize(descs, payload, 0, PAYLOAD_SIZE, startIndex);
      ghost var part := descs[startIndex..next];
      assert payload[..data] == Bytes(part);
      sections' := PutSection(sections, Section(tableId, tidExt, version, isCurrent, sectionNumber, payload[..data]));
      SectionedOneMore(AsTable(), parts, part);
    }

    method Deserialize(sections: seq<Section>)
      modifies this
      ensures AsTable() == Deserialized(old(AsTable()), sections)
    {
      isValid := false;
      descs := [];
      if sections == [] || sections[0].tableId != tableId {
        return;
      }
      hide ParseDescriptors;
      ghost var t0 := AsTable();
      assert sections[0..] == sections;
      for si := 0 to |sections|
        invariant !isValid && ReadSections(AsTable(), sections[si..]) == ReadSections(t0, sections)
      {
        var sect := sections[si];
        assert sections[si..][1..] == sections[si + 1..];
        version, isCurrent, tidExt := sect.version, sect.isCurrent, sect.tidExt;
        descs := AddFromMemory(descs, sect.payload);
      }
      isValid := true;
    }
  }

  // The first descriptors are packed, up to some index, not inclusive.
  ghost predicate Packed(ds: seq<Descriptor>, start: nat, parts: seq<Part>) {
    && start <= |ds|
    && if ds == [] then parts == [] || parts == [[]] else parts + Greedy(ds[start..]) == Greedy(ds)
  }

  lemma PackBegins(t: Table, ds: seq<Descriptor>)
    ensures Packed(ds, 0, []) && Sectioned(t, []) == []
  {
    assert ds[0..] == ds;
  }

  lemma PackOne(ds: seq<Descriptor>, start: nat, parts: seq<Part>)
    requires Packed(ds, start, parts) && (parts == [] || start < |ds|)
    ensures Packed(ds, start + FitCount(ds[start..], PAYLOAD_SIZE),
            parts + [ds[start..start + FitCount(ds[start..], PAYLOAD_SIZE)]])
  {
    if ds != [] {
      EmptyIsLast(ds, start, parts);
      var n := FitCount(ds[start..], PAYLOAD_SIZE);
      hide FitCount;
      assert ds[start..][..n] == ds[start..start + n] && ds[start..][n..] == ds[start + n..];
    }
  }

  lemma EmptyIsLast(ds: seq<Descriptor>, start: nat, parts: seq<Part>)
    requires Packed(ds, start, parts) && ds != []
    ensures parts == [] ==> start < |ds|
  {
    FitsOne(ds, PAYLOAD_SIZE);
  }

  lemma PackEnds(ds: seq<Descriptor>, start: nat, parts: seq<Part>)
    requires Packed(ds, start, parts) && 0 < |parts| <= 256 && (start == |ds| || |parts| == 256)
    ensures parts == Parts(ds)
  {
    if ds != [] {
      hide FitCount;
      if start == |ds| {
        assert Greedy(ds[start..]) == [];
      }
      assert Greedy(ds)[..|parts|] == parts;
    }
  }

  lemma SectionedOneMore(t: Table, parts: seq<Part>, part: Part)
    requires |parts| < 256
    ensures Sectioned(t, parts + [part]) == PutSection(Sectioned(t, parts), SectionOf(t, part, |parts|))
  {
    hide Bytes;
  }

  // A table of version 32, with any list, is not restored: it has no section.
  lemma Version32IsNotRestored(t: Table)
    requires t.valid && t.version == 32
    ensures Sectioned(t, Parts(t.descs)) == [] && !Deserialized(t, Sectioned(t, Parts(t.descs))).valid
  {
    RoundTrip(t, t);
  }
}
