/**
  The options of a command (tsArgs.cpp): their declaration and the search of an
  option by its name, which may be abbreviated, or by its one-letter name.
 */
module CommandOptions {

  // The declaration of an option. The option without a name is for the parameters.
  datatype OptionDef = OptionDef(name: string, short: char, hasValue: bool, optional: bool, minOccur: nat,
          maxOccur: nat)

  const NO_SHORT := '\0'

  datatype Found = Found(def: OptionDef) | NotFound

  // The order of names in a map.
  predicate Less(a: string, b: string) {
    b != "" && (a == "" || a[0] < b[0] || (a[0] == b[0] && Less(a[1..], b[1..])))
  }

  lemma {:induction false} LessIsTransitive(a: string, b: string, c: string)
    requires Less(a, b) && Less(b, c)
    ensures Less(a, c)
  {
    if a != "" && a[0] == b[0] == c[0] {
      LessIsTransitive(a[1..], b[1..], c[1..]);
    }
  }

  lemma {:induction false} LessIsTotal(a: string, b: string)
    ensures Less(a, b) || a == b || Less(b, a)
    ensures !(Less(a, b) && Less(b, a)) && !(a == b && Less(a, b))
  {
    if a != "" && b != "" && a[0] == b[0] {
      LessIsTotal(a[1..], b[1..]);
      assert a == [a[0]] + a[1..] && b == [b[0]] + b[1..];
    }
  }

  // An abbreviation comes before what it abbreviates.
  lemma {:induction false} AbbreviationIsLess(a: string, b: string)
    requires a <= b && a != b
    ensures Less(a, b)
  {
    if a != "" {
      AbbreviationIsLess(a[1..], b[1..]);
    }
  }

  // Options in the order of their names, each short name being used once.
  predicate ValidDefs(defs: seq<OptionDef>) {
    && (forall i, j :: 0 <= i < j < |defs| ==> Less(defs[i].name, defs[j].name))
    && (forall i, j :: 0 <= i < j < |defs| && defs[i].short != NO_SHORT ==> defs[i].short != defs[j].short)
  }

  // ----- Search by name -----

  predicate Abbreviates(name: string, full: string) {
    name != "" && name <= full && name != full
  }

  // The option with this very name or else the only one whose name begins with it.
  ghost predicate IsNamed(defs: seq<OptionDef>, name: string, r: Found) {
    match r
    case Found(def) =>
      def in defs
      && (def.name == name
          || (name != "" && name <= def.name && forall d :: d in defs ==>
              d.name != name && (name <= d.name ==> d == def)))
    case NotFound =>
      (forall d :: d in defs ==> d.name != name)
      && (name == "" || (forall d :: d in defs ==> !(name <= d.name))
          || exists d, d' :: d in defs && d' in defs && d.name != d'.name && name <= d.name && name <= d'.name)
  }

  // The loop over the map, from index i on, with the remembered candidate.
  function ScanNames(defs: seq<OptionDef>, name: string, i: nat, previous: Found): Found
    requires i <= |defs|
    decreases |defs| - i
  {
    if i == |defs| then previous
    else if defs[i].name == name then Found(defs[i])
    else if Abbreviates(name, defs[i].name) then
      if previous == NotFound then ScanNames(defs, name, i + 1, Found(defs[i])) else NotFound
    else ScanNames(defs, name, i + 1, previous)
  }

  function SearchName(defs: seq<OptionDef>, name: string): Found {
    ScanNames(defs, name, 0, NotFound)
  }

  // The order matters: no abbreviation is met before the name itself.
  lemma {:induction false} ScanIsSearch(defs: seq<OptionDef>, name: string, i: nat, previous: Found)
    requires ValidDefs(defs) && i <= |defs|
    requires forall k :: 0 <= k < i ==> defs[k].name != name
    requires previous == NotFound ==> forall k :: 0 <= k < i ==> !Abbreviates(name, defs[k].name)
    requires previous.Found? ==> exists k :: 0 <= k < i && CandidateAt(defs, name, i, previous, k)
    ensures IsNamed(defs, name, ScanNames(defs, name, i, previous))
    decreases |defs| - i
  {
    if i < |defs| && defs[i].name != name {
      if previous.Found? {
        var k :| 0 <= k < i && CandidateAt(defs, name, i, previous, k);
        if Abbreviates(name, defs[i].name) {
          NameComesFirst(defs, name, i);
          assert defs[k] in defs && defs[i] in defs && defs[k].name != defs[i].name by {
            LessIsTotal(defs[k].name, defs[i].name);
          }
        } else {
          assert CandidateAt(defs, name, i + 1, previous, k);
          ScanIsSearch(defs, name, i + 1, previous);
        }
      } else if Abbreviates(name, defs[i].name) {
        assert CandidateAt(defs, name, i + 1, Found(defs[i]), i);
        ScanIsSearch(defs, name, i + 1, Found(defs[i]));
      } else {
        ScanIsSearch(defs, name, i + 1, previous);
      }
    }
  }

  // The candidate is the only one before index i; the name itself is not after it.
  ghost predicate CandidateAt(defs: seq<OptionDef>, name: string, i: nat, previous: Found, k: nat)
    requires i <= |defs|
  {
    && k < i && previous == Found(defs[k]) && Abbreviates(name, defs[k].name)
    && forall j :: 0 <= j < i && j != k ==> !Abbreviates(name, defs[j].name)
  }

  lemma NameComesFirst(defs: seq<OptionDef>, name: string, i: nat)
    requires ValidDefs(defs) && i < |defs| && Abbreviates(name, defs[i].name)
    ensures forall j :: i < j < |defs| ==> defs[j].name != name
  {
    forall j | i < j < |defs| ensures defs[j].name != name {
      AbbreviationIsLess(name, defs[i].name);
      LessIsTotal(name, defs[i].name);
    }
  }

  // The search gives the option with that name, or else the only one that it
  // abbreviates, if any.
  lemma SearchFindsNamed(defs: seq<OptionDef>, name: string)
    requires ValidDefs(defs)
    ensures IsNamed(defs, name, SearchName(defs, name))
  {
    ScanIsSearch(defs, name, 0, NotFound);
  }

  method FindName(defs: seq<OptionDef>, name: string) returns (r: Found)
    requires ValidDefs(defs)
    ensures r == SearchName(defs, name) && IsNamed(defs, name, r)
  {
    hide IsNamed;
    SearchFindsNamed(defs, name);
    var previous := NotFound;
    for it := 0 to |defs|
      invariant ScanNames(defs, name, it, previous) == SearchName(defs, name)
    {
      if defs[it].name == name {
        return Found(defs[it]);
      } else if name != "" && name <= defs[it].name {
        if previous == NotFound {
          previous := Found(defs[it]);
        } else {
          return NotFound;
        }
      }
    }
    return previous;
  }

  // ----- Search by short name -----

  // The first option with a short name.
  function SearchShort(defs: seq<OptionDef>, c: char): Found {
    if defs == [] then NotFound
    else if defs[0].short == c then Found(defs[0])
    else SearchShort(defs[1..], c)
  }

  lemma {:induction false} SearchFindsShort(defs: seq<OptionDef>, c: char)
    ensures match SearchShort(defs, c)
            case Found(def) => def in defs && def.short == c
            case NotFound => forall d :: d in defs ==> d.short != c
  {
    if defs != [] {
      SearchFindsShort(defs[1..], c);
      assert forall d :: d in defs <==> d == defs[0] || d in defs[1..];
    }
  }

  // An option is the only one with its short name.
  lemma ShortIsUnique(defs: seq<OptionDef>, def: OptionDef)
    requires ValidDefs(defs) && def in defs && def.short != NO_SHORT
    ensures SearchShort(defs, def.short) == Found(def)
  {
    SearchFindsShort(defs, def.short);
  }

  method FindShort(defs: seq<OptionDef>, c: char) returns (r: Found)
    ensures r == SearchShort(defs, c)
  {
    assert defs[0..] == defs;
    for it := 0 to |defs|
      invariant SearchShort(defs[it..], c) == SearchShort(defs, c)
    {
      if defs[it].short == c {
        return Found(defs[it]);
      }
      assert defs[it..][1..] == defs[it + 1..];
    }
    return NotFound;
  }

  // ----- Declaration -----

  // The options in a map after one of them is added: the one with the same name is
  // replaced, the one with the same short name loses it.
  ghost predicate IsAdded(before: seq<OptionDef>, def: OptionDef, after: seq<OptionDef>) {
    && ValidDefs(after) && def in after
    && (forall d :: d in before && d.name != def.name ==> WithoutShort(d, def.short) in after)
    && (forall d :: d in after && d != def ==>
        exists b :: b in before && b.name != def.name && d == WithoutShort(b, def.short))
  }

  function WithoutShort(d: OptionDef, short: char): OptionDef {
    if d.short == short then d.(short := NO_SHORT) else d
  }

  lemma Erased(defs: seq<OptionDef>, it: nat)
    requires ValidDefs(defs) && it < |defs|
    ensures var r := defs[..it] + defs[it + 1..];
            ValidDefs(r) && forall d :: d in r <==> d in defs && d.name != defs[it].name
  {
    forall k | 0 <= k < |defs| && k != it ensures defs[k].name != defs[it].name {
      LessIsTotal(defs[it].name, defs[k].name);
    }
    var r := defs[..it] + defs[it + 1..];
    assert forall k :: 0 <= k < |r| ==> r[k] == defs[if k < it then k else k + 1];
    assert forall d :: d in r <==> d in defs[..it] || d in defs[it + 1..];
    assert defs == defs[..it] + [defs[it]] + defs[it + 1..];
  }

  // Erase the option with some name.
  method Erase(defs: seq<OptionDef>, name: string) returns (r: seq<OptionDef>)
    requires ValidDefs(defs)
    ensures ValidDefs(r) && forall d :: d in r <==> d in defs && d.name != name
  {
    for it := 0 to |defs|
      invariant forall k :: 0 <= k < it ==> defs[k].name != name
    {
      if defs[it].name == name {
        Erased(defs, it);
        return defs[..it] + defs[it + 1..];
      }
    }
    r := defs;
  }

  // Clear a short name: there is at most one option that has it.
  method ClearShort(defs: seq<OptionDef>, short: char) returns (r: seq<OptionDef>)
    requires ValidDefs(defs) && short != NO_SHORT
    ensures ValidDefs(r) && |r| == |defs| && forall i :: 0 <= i < |defs| ==> r[i] == WithoutShort(defs[i], short)
  {
    for it := 0 to |defs|
      invariant forall k :: 0 <= k < it ==> defs[k].short != short
    {
      if defs[it].short == short {
        r := defs[it := defs[it].(short := NO_SHORT)];
        return;
      }
    }
    r := defs;
  }

  // Insert an option at its place in the order of names.
  method Insert(defs: seq<OptionDef>, def: OptionDef) returns (r: seq<OptionDef>)
    requires ValidDefs(defs) && forall d :: d in defs ==>
            d.name != def.name && (d.short != def.short || d.short == NO_SHORT)
    ensures ValidDefs(r) && forall d :: d in r <==> d in defs || d == def
  {
    var i := 0;
    while i < |defs| && Less(defs[i].name, def.name)
      invariant 0 <= i <= |defs| && forall k :: 0 <= k < i ==> Less(defs[k].name, def.name)
    {
      i := i + 1;
    }
    PlaceFound(defs, def, i);
    r := defs[..i] + [def] + defs[i..];
    hide Less;
    assert defs == defs[..i] + defs[i..];
    Inserted(defs[..i], def, defs[i..]);
  }

  lemma PlaceFound(defs: seq<OptionDef>, def: OptionDef, i: nat)
    requires ValidDefs(defs) && i <= |defs| && forall d :: d in defs ==> d.name != def.name
    requires i < |defs| ==> !Less(defs[i].name, def.name)
    ensures forall k :: i <= k < |defs| ==> Less(def.name, defs[k].name)
  {
    forall k | i <= k < |defs| ensures Less(def.name, defs[k].name) {
      LessIsTotal(def.name, defs[i].name);
      if k > i {
        LessIsTransitive(def.name, defs[i].name, defs[k].name);
      }
    }
  }

  lemma Inserted(a: seq<OptionDef>, def: OptionDef, b: seq<OptionDef>)
    requires ValidDefs(a + b)
    requires forall k :: 0 <= k < |a| ==> Less(a[k].name, def.name)
    requires forall k :: 0 <= k < |b| ==> Less(def.name, b[k].name)
    requires forall d :: d in a + b ==> d.short != def.short || d.short == NO_SHORT
    ensures ValidDefs(a + [def] + b) && forall d :: d in a + [def] + b <==> d in a + b || d == def
  {
    hide Less;
    var all, r := a + b, a + [def] + b;
    forall i, j | 0 <= i < j < |r|
      ensures Less(r[i].name, r[j].name) && (r[i].short != NO_SHORT ==> r[i].short != r[j].short)
    {
      var k, m := if i < |a| then i else i - 1, if j < |a| then j else j - 1;
      if i != |a| && j != |a| {
        assert r[i] == all[k] && r[j] == all[m];
      } else if i == |a| {
        assert r[j] == b[m - |a|] && r[j] == all[m];
      } else {
        assert r[i] == a[i] && r[i] == all[i];
      }
    }
  }

  method AddOption(defs: seq<OptionDef>, def: OptionDef) returns (r: seq<OptionDef>)
    requires ValidDefs(defs)
    ensures IsAdded(defs, def, r)
  {
    var others := Erase(defs, def.name);
    var cleared := others;
    if def.short != NO_SHORT {
      cleared := ClearShort(others, def.short);
    }
    ShortCleared(others, cleared, def);
    r := Insert(cleared, def);
  }

  lemma ShortCleared(others: seq<OptionDef>, cleared: seq<OptionDef>, def: OptionDef)
    requires |cleared| == |others| && forall d :: d in others ==> d.name != def.name
    requires forall i :: 0 <= i < |others| ==>
               cleared[i] == if def.short == NO_SHORT then others[i] else WithoutShort(others[i], def.short)
    ensures forall d :: d in cleared ==> d.name != def.name && (d.short != def.short || d.short == NO_SHORT)
    ensures forall d :: d in others ==> WithoutShort(d, def.short) in cleared
    ensures forall d :: d in cleared ==> exists b :: b in others && d == WithoutShort(b, def.short)
  {
    forall i | 0 <= i < |others| ensures cleared[i] == WithoutShort(others[i], def.short) && others[i] in others { }
    forall d | d in others ensures WithoutShort(d, def.short) in cleared {
      var i :| 0 <= i < |others| && others[i] == d;
      assert cleared[i] == WithoutShort(d, def.short);
    }
  }
}
