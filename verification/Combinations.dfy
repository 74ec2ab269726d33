/**
  The enumeration of all combinations of some size in a set (tsAlgorithmTemplate.h):
  a recursive search with one shared set. Ordered sets are strictly increasing
  sequences.
 */
module Combinations {

  predicate Increasing(s: seq<int>) {
    forall i, j :: 0 <= i < j < |s| ==> s[i] < s[j]
  }

  function Elements(s: seq<int>): set<int> {
    set x | x in s
  }

  // ----- The combinations, in order -----

  function AddToAll(c: set<int>, list: seq<set<int>>): (r: seq<set<int>>)
    ensures |r| == |list| && forall i :: 0 <= i < |r| ==> r[i] == c + list[i]
  {
    seq(|list|, i requires 0 <= i < |list| => c + list[i])
  }

  // All sets of k values: those with the first value, then those without.
  function AllOfSize(values: seq<int>, k: nat): seq<set<int>>
    decreases |values|
  {
    if k == 0 then [{}]
    else if values == [] then []
    else AddToAll({values[0]}, AllOfSize(values[1..], k - 1)) + AllOfSize(values[1..], k)
  }

  // The lexicographic order of sets of the same size: the smallest value that is in only
  // one of them is in the first one.
  ghost predicate Before(a: set<int>, b: set<int>) {
    exists m :: SplitAt(a, b, m)
  }

  ghost predicate SplitAt(a: set<int>, b: set<int>, m: int) {
    m in a && m !in b && forall x :: x < m ==> (x in a <==> x in b)
  }

  ghost predicate InOrder(list: seq<set<int>>) {
    forall i, j :: 0 <= i < j < |list| ==> Before(list[i], list[j])
  }

  lemma BeforeIsStrict(a: set<int>, b: set<int>)
    requires Before(a, b)
    ensures a != b && !Before(b, a)
  {
    var m :| SplitAt(a, b, m);
    forall n ensures !SplitAt(b, a, n) {
      assert m < n || n <= m;
    }
  }

  lemma ElementsOfRest(values: seq<int>)
    requires values != [] && Increasing(values)
    ensures Elements(values) == {values[0]} + Elements(values[1..]) && values[0] !in Elements(values[1..])
    ensures Increasing(values[1..]) && forall x :: x in Elements(values[1..]) ==> values[0] < x
  {
    assert values == [values[0]] + values[1..];
  }

  // Exactly the sets of k values are there.
  lemma {:induction false} AllOfSizeIsComplete(values: seq<int>, k: nat, c: set<int>)
    requires Increasing(values)
    ensures c in AllOfSize(values, k) <==> c <= Elements(values) && |c| == k
    decreases |values|
  {
    hide Elements;
    if k == 0 {
      assert |c| == 0 <==> c == {};
    } else if values == [] {
      NoElements();
      assert c <= {} ==> c == {};
    } else {
      var v, rest := values[0], values[1..];
      ElementsOfRest(values);
      AllOfSizeIsComplete(rest, k, c);
      AllOfSizeIsComplete(rest, k - 1, c - {v});
      InAddToAll(v, AllOfSize(rest, k - 1), c, rest, k);
      WithOrWithout(v, c, Elements(rest));
      InConcat(AddToAll({v}, AllOfSize(rest, k - 1)), AllOfSize(rest, k), c);
      assert AllOfSize(values, k) == AddToAll({v}, AllOfSize(rest, k - 1)) + AllOfSize(rest, k);
      hide *;
    }
  }

  lemma InConcat(a: seq<set<int>>, b: seq<set<int>>, c: set<int>)
    ensures c in a + b <==> c in a || c in b
  {
  }

  lemma WithOrWithout(v: int, c: set<int>, rest: set<int>)
    requires v !in rest
    ensures v in c ==> (c <= {v} + rest <==> c - {v} <= rest) && !(c <= rest) && |c - {v}| == |c| - 1
    ensures v !in c ==> (c <= {v} + rest <==> c <= rest)
  {
    if v in c {
      assert c == {v} + (c - {v});
    }
  }

  lemma NoElements()
    ensures Elements([]) == {}
  {
  }

  // A set with v comes from one of the sets to which v is added.
  lemma InAddToAll(v: int, list: seq<set<int>>, c: set<int>, rest: seq<int>, k: nat)
    requires Increasing(rest) && v !in Elements(rest) && k > 0 && list == AllOfSize(rest, k - 1)
    ensures c in AddToAll({v}, list) <==> v in c && c - {v} in list
  {
    if c in AddToAll({v}, list) {
      var i :| 0 <= i < |list| && AddToAll({v}, list)[i] == c;
      AllOfSizeIsWithin(rest, k - 1, i);
      assert c - {v} == list[i];
    }
    if v in c && c - {v} in list {
      var i :| 0 <= i < |list| && list[i] == c - {v};
      assert AddToAll({v}, list)[i] == c;
    }
  }

  lemma {:induction false} AllOfSizeIsWithin(values: seq<int>, k: nat, i: nat)
    requires i < |AllOfSize(values, k)|
    ensures AllOfSize(values, k)[i] <= Elements(values)
    decreases |values|
  {
    if k > 0 && values != [] {
      var n := |AllOfSize(values[1..], k - 1)|;
      if i < n {
        AllOfSizeIsWithin(values[1..], k - 1, i);
      } else {
        AllOfSizeIsWithin(values[1..], k, i - n);
      }
    }
  }

  lemma {:induction false} AllOfSizeInOrder(values: seq<int>, k: nat)
    requires Increasing(values)
    ensures InOrder(AllOfSize(values, k))
    decreases |values|
  {
    hide Elements;
    if k > 0 && values != [] {
      ElementsOfRest(values);
      AllOfSizeInOrder(values[1..], k - 1);
      AllOfSizeInOrder(values[1..], k);
      JoinInOrder(values[0], values[1..], k);
    }
  }

  lemma JoinInOrder(v: int, rest: seq<int>, k: nat)
    requires k > 0 && v !in Elements(rest) && forall x :: x in Elements(rest) ==> v < x
    requires InOrder(AllOfSize(rest, k - 1)) && InOrder(AllOfSize(rest, k))
    ensures InOrder(AddToAll({v}, AllOfSize(rest, k - 1)) + AllOfSize(rest, k))
  {
    hide AllOfSize, Before, Elements;
    var a, b := AllOfSize(rest, k - 1), AllOfSize(rest, k);
    forall i, j | 0 <= i < j < |a| + |b| ensures Before((AddToAll({v}, a) + b)[i], (AddToAll({v}, a) + b)[j]) {
      if j < |a| {
        AllOfSizeIsWithin(rest, k - 1, i);
        AllOfSizeIsWithin(rest, k - 1, j);
        BeforeWithMore(a[i], a[j], {v});
      } else if i < |a| {
        AllOfSizeIsWithin(rest, k - 1, i);
        AllOfSizeIsWithin(rest, k, j - |a|);
        FirstValueFirst(v, a[i], b[j - |a|]);
      }
    }
  }

  lemma FirstValueFirst(v: int, a: set<int>, b: set<int>)
    requires (forall x :: x in a ==> v < x) && forall x :: x in b ==> v < x
    ensures Before({v} + a, b)
  {
    assert SplitAt({v} + a, b, v);
  }

  // The order does not change when the same values are added to both sets.
  lemma BeforeWithMore(a: set<int>, b: set<int>, c: set<int>)
    requires Before(a, b) && a !! c && b !! c
    ensures Before(c + a, c + b)
  {
    var m :| SplitAt(a, b, m);
    assert SplitAt(c + a, c + b, m);
  }

  // ----- Calls of the predicate -----

  // The answer of the predicate may depend on all sets it got, the last one included.
  type Answers = seq<set<int>> -> bool

  // The predicate is called for each set of a list until it answers false: all calls,
  // and whether it never did.
  function CallAll(answers: Answers, calls: seq<set<int>>, list: seq<set<int>>): (seq<set<int>>, bool)
    decreases |list|
  {
    if list == [] then (calls, true)
    else
      var calls' := calls + [list[0]];
      if answers(calls') then CallAll(answers, calls', list[1..]) else (calls', false)
  }

  lemma {:induction false} CallAllOfConcat(answers: Answers, calls: seq<set<int>>, a: seq<set<int>>, b: seq<set<int>>)
    ensures CallAll(answers, calls, a + b)
         == var (calls', more) := CallAll(answers, calls, a);
            if more then CallAll(answers, calls', b) else (calls', false)
    decreases |a|
  {
    if a == [] {
      assert a + b == b;
    } else {
      assert (a + b)[1..] == a[1..] + b;
      var calls' := calls + [a[0]];
      if answers(calls') {
        CallAllOfConcat(answers, calls', a[1..], b);
      }
    }
  }

  // The calls are the first sets of the list. There are all of them, or the first
  // false answer is the one of the last call.
  lemma {:induction false} CallAllStopsAtFirstFalse(answers: Answers, calls: seq<set<int>>, list: seq<set<int>>)
    ensures var (calls', more) := CallAll(answers, calls, list);
            && |calls| <= |calls'| <= |calls| + |list| && calls' == calls + list[..|calls'| - |calls|]
            && (more ==> |calls'| == |calls| + |list|)
            && (!more ==> |calls'| > |calls| && !answers(calls'))
            && (forall n :: |calls| < n <= |calls'| && (more || n < |calls'|) ==> answers(calls'[..n]))
    decreases |list|
  {
    if list != [] {
      var next := calls + [list[0]];
      if answers(next) {
        CallAllStopsAtFirstFalse(answers, next, list[1..]);
        var (calls', more) := CallAll(answers, next, list[1..]);
        assert calls'[..|next|] == next;
      } else {
        assert next[..|next|] == next;
      }
    }
  }

  lemma AddToAllOfRest(c: set<int>, values: seq<int>, k: nat)
    requires values != [] && k > 0
    ensures AddToAll(c, AllOfSize(values, k))
         == AddToAll(c + {values[0]}, AllOfSize(values[1..], k - 1)) + AddToAll(c, AllOfSize(values[1..], k))
  {
    var a, b := AllOfSize(values[1..], k - 1), AllOfSize(values[1..], k);
    assert forall i :: 0 <= i < |a| ==> c + ({values[0]} + a[i]) == c + {values[0]} + a[i];
  }

  class Enumeration {
    const answers: Answers      // the predicate
    var current: set<int>       // the set that is passed to the predicate
    var calls: seq<set<int>>    // what was passed so far

    constructor (answers_: Answers)
      ensures answers == answers_ && calls == []
    {
      answers, current, calls := answers_, {}, [];
    }

    // Add all combinations of values from index begin on to the current set.
    method Search(values: seq<int>, begin: nat, level: nat) returns (more: bool)
      requires begin <= |values| && Increasing(values) && current !! Elements(values[begin..])
      modifies this
      ensures current == old(current)
      ensures (calls, more) == CallAll(answers, old(calls), AddToAll(current, AllOfSize(values[begin..], level)))
      decreases level
    {
      hide AddToAll, CallAll, AllOfSize, Elements;
      if level == 0 {
        OneCall(answers, calls, current, values[begin..]);
        calls := calls + [current];
        more := answers(calls);
      } else {
        more := true;
        var it := begin;
        while more && it < |values|
          invariant begin <= it <= |values| && current == old(current) && current !! Elements(values[it..])
          invariant CallAll(answers, old(calls), AddToAll(current, AllOfSize(values[begin..], level)))
                 == if more then CallAll(answers, calls, AddToAll(current, AllOfSize(values[it..], level)))
                     else (calls, false)
        {
          NextValue(answers, calls, current, values, it, level);
          var x := values[it];
          current := current + {x};
          it := it + 1;
          more := Search(values, it, level - 1);
          current := current - {x};
        }
        if it == |values| {
          assert values[it..] == [];
          NoCall(answers, calls, current, level);
        }
      }
    }
  }

  lemma OneCall(answers: Answers, calls: seq<set<int>>, c: set<int>, values: seq<int>)
    ensures CallAll(answers, calls, AddToAll(c, AllOfSize(values, 0))) == (calls + [c], answers(calls + [c]))
  {
    assert AddToAll(c, [{}])[0] == c;
    assert AddToAll(c, [{}])[1..] == [];
  }

  lemma NoCall(answers: Answers, calls: seq<set<int>>, c: set<int>, level: nat)
    requires level > 0
    ensures CallAll(answers, calls, AddToAll(c, AllOfSize([], level))) == (calls, true)
  {
  }

  // The combinations from a value on: those with the value, then those without.
  lemma NextValue(answers: Answers, calls: seq<set<int>>, c: set<int>, values: seq<int>, it: nat, level: nat)
    requires it < |values| && level > 0 && Increasing(values) && c !! Elements(values[it..])
    ensures values[it] !in c && c + {values[it]} !! Elements(values[it + 1..]) && c !! Elements(values[it + 1..])
    ensures CallAll(answers, calls, AddToAll(c, AllOfSize(values[it..], level)))
         == var (calls', more) := CallAll(answers, calls,
             AddToAll(c + {values[it]}, AllOfSize(values[it + 1..], level - 1)));
            if more then CallAll(answers, calls', AddToAll(c, AllOfSize(values[it + 1..], level))) else (calls', false)
  {
    hide AddToAll, CallAll, AllOfSize, Elements;
    var rest := values[it..];
    ElementsOfRest(rest);
    assert rest[1..] == values[it + 1..];
    AddToAllOfRest(c, rest, level);
    CallAllOfConcat(answers, calls, AddToAll(c + {rest[0]}, AllOfSize(rest[1..], level - 1)),
                    AddToAll(c, AllOfSize(rest[1..], level)));
  }

  // The difference of an ordered set and a set.
  function Without(values: seq<int>, fixed: set<int>): (r: seq<int>)
    requires Increasing(values)
    ensures Increasing(r) && forall x :: x in r <==> x in values && x !in fixed
  {
    if values == [] then []
    else
      var r := Without(values[1..], fixed);
      ElementsOfRest(values);
      assert forall x :: x in values[1..] <==> x in Elements(values[1..]);
      assert forall x :: x in values <==> x == values[0] || x in values[1..];
      FirstOf(values[0], r);
      if values[0] in fixed then r else [values[0]] + r
  }

  lemma FirstOf(v: int, s: seq<int>)
    requires Increasing(s) && forall x :: x in s ==> v < x
    ensures Increasing([v] + s)
  {
    assert forall i :: 0 <= i < |s| ==> s[i] in s;
  }

  // What the enumeration promises: all sets of some size within the values that
  // contain the fixed ones.
  ghost predicate IsCombination(c: set<int>, values: set<int>, fixed: set<int>, size: nat) {
    fixed <= c <= values && |c| == size
  }

  // A list of all combinations, each one once, in lexicographic order.
  ghost predicate AreCombinations(list: seq<set<int>>, values: set<int>, fixed: set<int>, size: nat) {
    InOrder(list) && forall c :: c in list <==> IsCombination(c, values, fixed, size)
  }

  // No set can come twice.
  lemma EachOnce(list: seq<set<int>>, i: nat, j: nat)
    requires InOrder(list) && i < j < |list|
    ensures list[i] != list[j]
  {
    BeforeIsStrict(list[i], list[j]);
  }

  lemma FixedAdded(sub: seq<int>, values: set<int>, fixed: set<int>, size: nat)
    requires Increasing(sub) && Elements(sub) == values - fixed && fixed <= values && |fixed| <= size
    ensures AreCombinations(AddToAll(fixed, AllOfSize(sub, size - |fixed|)), values, fixed, size)
  {
    hide AddToAll, Elements, AllOfSize, Before;
    var k := size - |fixed|;
    forall c ensures c in AddToAll(fixed, AllOfSize(sub, k)) <==> IsCombination(c, values, fixed, size) {
      InFixedAdded(sub, fixed, k, c);
      AllOfSizeIsComplete(sub, k, c - fixed);
      if fixed <= c {
        SizeWithout(c, fixed);
      }
    }
    FixedInOrder(sub, fixed, k);
  }

  lemma FixedInOrder(sub: seq<int>, fixed: set<int>, k: nat)
    requires Increasing(sub) && Elements(sub) !! fixed
    ensures InOrder(AddToAll(fixed, AllOfSize(sub, k)))
  {
    hide Elements, AllOfSize, Before;
    var all := AllOfSize(sub, k);
    AllOfSizeInOrder(sub, k);
    forall i, j | 0 <= i < j < |all| ensures Before(fixed + all[i], fixed + all[j]) {
      AllOfSizeIsWithin(sub, k, i);
      AllOfSizeIsWithin(sub, k, j);
      BeforeWithMore(all[i], all[j], fixed);
    }
  }

  lemma SizeWithout(c: set<int>, fixed: set<int>)
    requires fixed <= c
    ensures |c - fixed| == |c| - |fixed|
  {
    assert c == fixed + (c - fixed);
  }

  lemma InFixedAdded(sub: seq<int>, fixed: set<int>, k: nat, c: set<int>)
    requires Elements(sub) !! fixed
    ensures c in AddToAll(fixed, AllOfSize(sub, k)) <==> fixed <= c && c - fixed in AllOfSize(sub, k)
  {
    var all := AllOfSize(sub, k);
    if c in AddToAll(fixed, all) {
      var i :| 0 <= i < |all| && AddToAll(fixed, all)[i] == c;
      AllOfSizeIsWithin(sub, k, i);
      assert c - fixed == all[i];
    }
    if fixed <= c && c - fixed in all {
      var i :| 0 <= i < |all| && all[i] == c - fixed;
      assert AddToAll(fixed, all)[i] == fixed + (c - fixed) == c;
    }
  }

  // The predicate was called for all combinations, each one once, in lexicographic order,
  // until it answered false.
  ghost predicate Enumerated(answers: Answers, calls: seq<set<int>>, more: bool, values: set<int>, fixed: set<int>,
          size: nat) {
    exists list :: AreCombinations(list, values, fixed, size) && (calls, more) == CallAll(answers, [], list)
  }

  // All fixed values are among the values.
  predicate Includes(values: seq<int>, fixed: set<int>) {
    forall x :: x in fixed ==> x in values
  }

  // Enumerate the combinations, until the predicate answers false.
  method EnumerateCombinations(values: seq<int>, fixed: set<int>, size: nat, answers: Answers)
    returns (more: bool, calls: seq<set<int>>)
    requires Increasing(values)
    ensures Enumerated(answers, calls, more, Elements(values), fixed, size)
  {
    hide AddToAll, Without, CallAll, AllOfSize, AreCombinations, Elements, Increasing, Enumerated, Includes;
    if size > |values| || |fixed| > size || !Includes(values, fixed) {
      NoCombination(answers, values, fixed, size);
      return true, [];
    }
    var sub := Candidates(values, fixed);
    FixedIncluded(values, fixed);
    more, calls := SearchFrom(sub, fixed, size - |fixed|, answers);
    SearchEnumerates(answers, calls, more, sub, Elements(values), fixed, size);
  }

  lemma SearchEnumerates(answers: Answers, calls: seq<set<int>>, more: bool, sub: seq<int>, values: set<int>,
          fixed: set<int>, size: nat)
    requires Increasing(sub) && Elements(sub) == values - fixed && fixed <= values && |fixed| <= size
    requires (calls, more) == CallAll(answers, [], AddToAll(fixed, AllOfSize(sub, size - |fixed|)))
    ensures Enumerated(answers, calls, more, values, fixed, size)
  {
    hide AddToAll, CallAll, AllOfSize, AreCombinations;
    FixedAdded(sub, values, fixed, size);
  }

  // The values to add to the fixed ones.
  method Candidates(values: seq<int>, fixed: set<int>) returns (sub: seq<int>)
    requires Increasing(values)
    ensures Increasing(sub) && Elements(sub) == Elements(values) - fixed
  {
    sub := if fixed == {} then values else Without(values, fixed);
  }

  // The search starts with the fixed values in the current set.
  method SearchFrom(sub: seq<int>, fixed: set<int>, level: nat, answers: Answers)
    returns (more: bool, calls: seq<set<int>>)
    requires Increasing(sub) && fixed !! Elements(sub)
    ensures (calls, more) == CallAll(answers, [], AddToAll(fixed, AllOfSize(sub, level)))
  {
    hide AddToAll, CallAll, AllOfSize, Elements;
    var search := new Enumeration(answers);
    search.current := fixed;
    assert sub[0..] == sub;
    more := search.Search(sub, 0, level);
    calls := search.calls;
  }

  lemma FixedIncluded(values: seq<int>, fixed: set<int>)
    requires Includes(values, fixed)
    ensures fixed <= Elements(values)
  {
    forall x | x in fixed ensures x in Elements(values) {
      assert x in values;
    }
  }

  lemma NoCombination(answers: Answers, values: seq<int>, fixed: set<int>, size: nat)
    requires Increasing(values)
    requires size > |values| || |fixed| > size || !Includes(values, fixed)
    ensures Enumerated(answers, [], true, Elements(values), fixed, size)
  {
    ElementsSize(values);
    forall c ensures !IsCombination(c, Elements(values), fixed, size) {
      if fixed <= c <= Elements(values) {
        SizeWithout(c, fixed);
        SizeWithout(Elements(values), c);
        forall x | x in fixed ensures x in values {
          assert x in Elements(values);
        }
      }
    }
    assert AreCombinations([], Elements(values), fixed, size) && CallAll(answers, [], []) == ([], true);
  }

  lemma {:induction false} ElementsSize(values: seq<int>)
    requires Increasing(values)
    ensures |Elements(values)| == |values|
  {
    if values == [] {
      NoElements();
    } else {
      ElementsOfRest(values);
      ElementsSize(values[1..]);
    }
  }
}
