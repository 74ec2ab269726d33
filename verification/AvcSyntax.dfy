/**
  Syntax structures of Advanced Video Coding data (ITU-T H.264, section 7.3): which
  elements come next depends on the values that were read before.
 */
module AvcSyntax {
  import opened AvcBits
  import opened AvcCodes
  import opened AvcElements
  import opened AvcParser

  // An element and, for each of its values, what follows.
  datatype Syntax = End | Item(kind: Kind, next: int -> Syntax)

  // The values of a whole structure, all in range.
  predicate Follows(s: Syntax, vals: seq<int>)
    decreases |vals|
  {
    match s
    case End => vals == []
    case Item(kind, next) => vals != [] && Fits(kind, vals[0]) && Follows(next(vals[0]), vals[1..])
  }

  function EncodeSyntax(s: Syntax, vals: seq<int>): seq<Bit>
    requires Follows(s, vals)
    decreases |vals|
  {
    match s
    case End => []
    case Item(kind, next) => Encode(kind, vals[0]) + EncodeSyntax(next(vals[0]), vals[1..])
  }

  // What reading a whole structure should give.
  function DecodeSyntax(s: Syntax, bits: seq<Bit>): Reading<seq<int>>
    decreases |bits|
  {
    match s
    case End => Read([], bits)
    case Item(kind, next) =>
      match Decode(kind, bits)
      case Read(v, rest) => (DecodeShrinks(kind, bits); Prepend([v], DecodeSyntax(next(v), rest)))
      case Truncated => Truncated
      case OutOfRange => OutOfRange
  }

  // Reading a structure that was written gives it back, whatever comes next.
  lemma {:induction false} DecodeEncodeSyntax(s: Syntax, vals: seq<int>, rest: seq<Bit>)
    requires Follows(s, vals)
    ensures DecodeSyntax(s, EncodeSyntax(s, vals) + rest) == Read(vals, rest)
    decreases |vals|
  {
    hide Encode, Decode, Fits;
    match s
    case End =>
      assert EncodeSyntax(s, vals) + rest == rest;
    case Item(kind, next) =>
      var after := EncodeSyntax(next(vals[0]), vals[1..]) + rest;
      assert EncodeSyntax(s, vals) + rest == Encode(kind, vals[0]) + after;
      DecodeEncode(kind, vals[0], after);
      DecodeEncodeSyntax(next(vals[0]), vals[1..], rest);
      assert [vals[0]] + vals[1..] == vals;
  }

  // A structure that was read was written in the only way.
  lemma {:induction false} EncodeDecodeSyntax(s: Syntax, bits: seq<Bit>)
    requires DecodeSyntax(s, bits).Read?
    ensures var r := DecodeSyntax(s, bits); Follows(s, r.value) && bits == EncodeSyntax(s, r.value) + r.rest
    decreases |bits|
  {
    hide Encode, Decode, Fits;
    match s
    case End =>
      assert EncodeSyntax(s, []) + bits == bits;
    case Item(kind, next) =>
      var first := Decode(kind, bits);
      DecodeShrinks(kind, bits);
      EncodeDecode(kind, bits);
      EncodeDecodeSyntax(next(first.value), first.rest);
      var r := DecodeSyntax(s, bits);
      assert r.value[1..] == DecodeSyntax(next(first.value), first.rest).value;
  }

  // ----- Shapes -----

  // What remains of a structure after its first i values.
  function Remaining(s: Syntax, vals: seq<int>, i: nat): Syntax
    requires i <= |vals|
  {
    if i == 0 then s
    else
      match Remaining(s, vals, i - 1)
      case End => End
      case Item(_, next) => next(vals[i - 1])
  }

  // The first values of a structure are of these kinds, up to some other structure.
  ghost predicate Part(s: Syntax, kinds: seq<Kind>, vals: seq<int>, k: Syntax) {
    && |kinds| == |vals| && Remaining(s, vals, |vals|) == k
    && forall i :: 0 <= i < |vals| ==> Remaining(s, vals, i).Item? && Remaining(s, vals, i).kind == kinds[i]
  }

  lemma {:induction false} RemainingOfMore(s: Syntax, vals: seq<int>, more: seq<int>, i: nat)
    requires i <= |vals|
    ensures Remaining(s, vals + more, i) == Remaining(s, vals, i)
  {
    if i > 0 {
      RemainingOfMore(s, vals, more, i - 1);
    }
  }

  lemma {:induction false} RemainingOfNext(s: Syntax, vals: seq<int>, more: seq<int>, i: nat)
    requires i <= |more|
    ensures Remaining(s, vals + more, |vals| + i) == Remaining(Remaining(s, vals, |vals|), more, i)
  {
    if i == 0 {
      RemainingOfMore(s, vals, more, |vals|);
    } else {
      RemainingOfNext(s, vals, more, i - 1);
    }
  }

  // Parts that follow each other.
  lemma Join(s: Syntax, kinds: seq<Kind>, vals: seq<int>, t: Syntax, kinds': seq<Kind>, vals': seq<int>, k: Syntax)
    requires Part(s, kinds, vals, t) && Part(t, kinds', vals', k)
    ensures Part(s, kinds + kinds', vals + vals', k)
  {
    hide Remaining;
    var n, all := |vals|, vals + vals';
    RemainingOfNext(s, vals, vals', |vals'|);
    forall i | 0 <= i < |all|
      ensures Remaining(s, all, i).Item? && Remaining(s, all, i).kind == (kinds + kinds')[i]
    {
      if i < n {
        RemainingOfMore(s, vals, vals', i);
      } else {
        RemainingOfNext(s, vals, vals', i - n);
      }
    }
  }

  // They are then the values of the structure if they fit, and are written back to back.
  lemma WrittenByKinds(s: Syntax, kinds: seq<Kind>, vals: seq<int>)
    requires Part(s, kinds, vals, End)
    ensures Follows(s, vals) <==> AllFit(kinds, vals)
    ensures Follows(s, vals) ==> EncodeSyntax(s, vals) == EncodeAll(kinds, vals)
  {
    assert vals[0..] == vals && kinds[0..] == kinds;
    WrittenFrom(s, kinds, vals, 0);
  }

  lemma {:induction false} WrittenFrom(s: Syntax, kinds: seq<Kind>, vals: seq<int>, i: nat)
    requires Part(s, kinds, vals, End) && i <= |vals|
    ensures Follows(Remaining(s, vals, i), vals[i..]) <==> AllFit(kinds[i..], vals[i..])
    ensures Follows(Remaining(s, vals, i), vals[i..]) ==>
              EncodeSyntax(Remaining(s, vals, i), vals[i..]) == EncodeAll(kinds[i..], vals[i..])
    decreases |vals| - i
  {
    hide Fits, Encode;
    if i < |vals| {
      WrittenFrom(s, kinds, vals, i + 1);
      assert vals[i..][1..] == vals[i + 1..] && kinds[i..][1..] == kinds[i + 1..];
      var rest, k := vals[i..], kinds[i..];
      assert AllFit(k, rest) <==> Fits(k[0], rest[0]) && AllFit(k[1..], rest[1..]) by {
        FirstFits(k, rest);
      }
    }
  }

  lemma FirstFits(kinds: seq<Kind>, vals: seq<int>)
    requires |kinds| == |vals| > 0
    ensures AllFit(kinds, vals) <==> Fits(kinds[0], vals[0]) && AllFit(kinds[1..], vals[1..])
  {
    hide Fits;
    if Fits(kinds[0], vals[0]) && AllFit(kinds[1..], vals[1..]) {
      forall i | 0 <= i < |kinds| ensures Fits(kinds[i], vals[i]) {
        if i > 0 {
          assert kinds[i] == kinds[1..][i - 1] && vals[i] == vals[1..][i - 1];
        }
      }
    }
  }

  // ----- Parsing -----

  // A structure that is being parsed: what reading all of it should give, the values so
  // far, and what remains.
  datatype Trace = Trace(whole: Reading<seq<int>>, vals: seq<int>, rest: Syntax)
  {
    function Next(v: int): Trace
      requires rest.Item?
    {
      Trace(whole, vals + [v], rest.next(v))
    }
  }

  function Begin(s: Syntax, bits: seq<Bit>): Trace {
    Trace(DecodeSyntax(s, bits), [], s)
  }

  // The parser has read the values so far, or has failed because the structure is not
  // complete. Nothing is known after a value that is out of range. The end is not passed
  // when no byte is dropped among the last four ones.
  ghost predicate At(p: Parser, status: Status, t: Trace)
    reads p
  {
    && p.Valid()
    && (!t.whole.OutOfRange? ==>
          && (status == Done ==> t.whole == Prepend(t.vals, DecodeSyntax(t.rest, p.Rest())))
          && (status == PastEnd ==> !CleanEnd(p.data)))
    && (status != Done ==> !t.whole.Read?)
  }

  lemma AtBegin(p: Parser, s: Syntax)
    requires p.Valid()
    ensures At(p, Done, Begin(s, p.Rest()))
  {
    PrependNothing(DecodeSyntax(s, p.Rest()));
  }

  // At the end of a structure, all of it is read.
  lemma AtEnd(p: Parser, status: Status, t: Trace)
    requires At(p, status, t) && (status == Done ==> t.rest == End)
    ensures Agrees(t.whole, status, t.vals, p.Rest())
    ensures status == PastEnd && !t.whole.OutOfRange? ==> !CleanEnd(p.data)
  {
    assert t.vals + [] == t.vals;
  }

  // Read the next element of a structure.
  method ReadField(p: Parser, kind: Kind, ghost t: Trace) returns (status: Status, v: int, ghost t': Trace)
    requires At(p, Done, t) && t.rest.Item? && t.rest.kind == kind
    modifies p`byte, p`bit
    ensures p.Valid() && At(p, status, t') && |p.Rest()| <= old(|p.Rest()|) && (status == Done ==>
        |p.Rest()| < old(|p.Rest()|))
    ensures t' == t.Next(v) && (!kind.KindSe? ==> v >= 0)
  {
    hide Decode, CleanEnd, BitsFrom, DecodeSyntax;
    ghost var bits := p.Rest();
    status, v := ReadElement(p, kind);
    if status != Done {
      v := 0;
    }
    t' := t.Next(v);
    FirstElement(t, bits);
    if status == Done {
      MovePrepended(t.vals, v, DecodeSyntax(t.rest.next(v), p.Rest()));
    }
  }

  lemma FirstElement(t: Trace, bits: seq<Bit>)
    requires t.rest.Item?
    ensures DecodeSyntax(t.rest, bits)
         == match Decode(t.rest.kind, bits)
            case Read(v, rest) => Prepend([v], DecodeSyntax(t.rest.next(v), rest))
            case Truncated => Truncated
            case OutOfRange => OutOfRange
  {
    hide Decode;
  }
}
