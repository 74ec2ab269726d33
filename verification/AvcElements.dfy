/**
  Lists of syntax elements of Advanced Video Coding data, written back to back in
  a payload and read with successive calls of the methods of the parser.
 */
module AvcElements {
  import opened Octets
  import opened AvcBits
  import opened AvcCodes
  import opened AvcParser

  // The number of bits of an element that is not empty and fits in a 32-bit integer.
  type Width = n: nat | 0 < n <= 32 witness 1

  // u(n), ue(v) and se(v) into 32-bit integers, and ue(v) into 8-bit ones.
  datatype Kind = KindU(n: Width) | KindUe | KindUe8 | KindSe

  predicate Fits(kind: Kind, v: int) {
    match kind
    case KindU(n) => 0 <= v < Pow2(n)
    case KindUe => 0 <= v && v + 1 < Pow2(32)
    case KindUe8 => 0 <= v && v + 1 < Pow2(8)
    case KindSe => SignedCode(v) + 1 < Pow2(31)
  }

  predicate AllFit(kinds: seq<Kind>, vals: seq<int>) {
    |kinds| == |vals| && forall i :: 0 <= i < |kinds| ==> Fits(kinds[i], vals[i])
  }

  function Encode(kind: Kind, v: int): seq<Bit>
    requires Fits(kind, v)
  {
    match kind
    case KindU(n) => EncodeU(v, n)
    case KindUe => EncodeUe(v)
    case KindUe8 => EncodeUe(v)
    case KindSe => EncodeSe(v)
  }

  function EncodeAll(kinds: seq<Kind>, vals: seq<int>): seq<Bit>
    requires AllFit(kinds, vals)
  {
    if kinds == [] then [] else Encode(kinds[0], vals[0]) + EncodeAll(kinds[1..], vals[1..])
  }

  function Decode(kind: Kind, bits: seq<Bit>): Reading<int> {
    match kind
    case KindU(n) => (var (v, rest) :- DecodeU(bits, n); Read(v, rest))
    case KindUe => (var (v, rest) :- DecodeUe(bits, 32); Read(v, rest))
    case KindUe8 => (var (v, rest) :- DecodeUe(bits, 8); Read(v, rest))
    case KindSe => DecodeSe(bits, 31)
  }

  function DecodeAll(kinds: seq<Kind>, bits: seq<Bit>): Reading<seq<int>> {
    if kinds == [] then Read([], bits)
    else
      var (v, r1) :- Decode(kinds[0], bits);
      var (vs, r2) :- DecodeAll(kinds[1..], r1);
      Read([v] + vs, r2)
  }

  lemma EncodeDecode(kind: Kind, bits: seq<Bit>)
    requires Decode(kind, bits).Read?
    ensures var r := Decode(kind, bits); Fits(kind, r.value) && bits == Encode(kind, r.value) + r.rest
  {
    hide DecodeU, DecodeUe, DecodeSe, EncodeU, EncodeUe, EncodeSe, Pow2, SignedCode;
    match kind
    case KindU(n) => EncodeDecodeU(bits, n);
    case KindUe => EncodeDecodeUe(bits, 32);
    case KindUe8 => EncodeDecodeUe(bits, 8);
    case KindSe => EncodeDecodeSe(bits, 31);
  }

  // An element takes bits.
  lemma DecodeShrinks(kind: Kind, bits: seq<Bit>)
    requires Decode(kind, bits).Read?
    ensures |Decode(kind, bits).rest| < |bits|
  {
  }

  lemma DecodeEncode(kind: Kind, v: int, rest: seq<Bit>)
    requires Fits(kind, v)
    ensures Decode(kind, Encode(kind, v) + rest) == Read(v, rest)
  {
    hide DecodeU, DecodeUe, DecodeSe, EncodeU, EncodeUe, EncodeSe, Pow2, SignedCode;
    match kind
    case KindU(n) => DecodeEncodeU(v, n, rest);
    case KindUe => DecodeEncodeUe(v, 32, rest);
    case KindUe8 => DecodeEncodeUe(v, 8, rest);
    case KindSe => DecodeEncodeSe(v, 31, rest);
  }

  // Any list of values, written back to back, is what reading gives.
  lemma {:induction false} DecodeEncodeAll(kinds: seq<Kind>, vals: seq<int>, rest: seq<Bit>)
    requires AllFit(kinds, vals)
    ensures DecodeAll(kinds, EncodeAll(kinds, vals) + rest) == Read(vals, rest)
    decreases |kinds|
  {
    hide Decode, Encode, Fits;
    if kinds == [] {
      assert EncodeAll(kinds, vals) + rest == rest;
    } else {
      var after := EncodeAll(kinds[1..], vals[1..]) + rest;
      assert EncodeAll(kinds, vals) + rest == Encode(kinds[0], vals[0]) + after;
      DecodeEncode(kinds[0], vals[0], after);
      DecodeEncodeAll(kinds[1..], vals[1..], rest);
      assert [vals[0]] + vals[1..] == vals;
    }
  }

  method ReadElement(p: Parser, kind: Kind) returns (status: Status, v: int)
    requires p.Valid()
    modifies p`byte, p`bit
    ensures p.Valid() && |p.Rest()| <= old(|p.Rest()|) && (status == Done ==> |p.Rest()| < old(|p.Rest()|))
    ensures Agrees(Decode(kind, old(p.Rest())), status, v, p.Rest())
    ensures status == PastEnd && !Decode(kind, old(p.Rest())).OutOfRange? ==> !CleanEnd(p.data)
    ensures !kind.KindSe? && status == Done ==> v >= 0
  {
    hide DecodeUe, DecodeSe, BitsFrom, CleanEnd, Value;
    match kind
    case KindU(n) =>
      status, v := p.U(32, n);
    case KindUe =>
      status, v := p.Ue(32);
    case KindUe8 =>
      status, v := p.Ue(8);
    case KindSe =>
      status, v := p.Se(31);
  }

  method ReadElements(p: Parser, kinds: seq<Kind>) returns (status: Status, vals: seq<int>)
    requires p.Valid()
    modifies p`byte, p`bit
    ensures p.Valid()
    ensures Agrees(DecodeAll(kinds, old(p.Rest())), status, vals, p.Rest())
  {
    hide Decode, BitsFrom;
    ghost var all := DecodeAll(kinds, p.Rest());
    vals := [];
    assert kinds[0..] == kinds;
    PrependNothing(all);
    for i := 0 to |kinds|
      invariant p.Valid()
      invariant !all.OutOfRange? ==> all == Prepend(vals, DecodeAll(kinds[i..], p.Rest()))
    {
      var v;
      assert kinds[i..][1..] == kinds[i + 1..];
      ghost var before := vals;
      status, v := ReadElement(p, kinds[i]);
      if status != Done {
        return;
      }
      vals := vals + [v];
      MovePrepended(before, v, DecodeAll(kinds[i + 1..], p.Rest()));
    }
    status := Done;
    assert vals + [] == vals;
  }

  function Prepend(vals: seq<int>, r: Reading<seq<int>>): Reading<seq<int>> {
    var (vs, rest) :- r;
    Read(vals + vs, rest)
  }

  lemma PrependNothing(r: Reading<seq<int>>)
    ensures Prepend([], r) == r
  {
    if r.Read? {
      assert [] + r.value == r.value;
    }
  }

  lemma MovePrepended(vals: seq<int>, v: int, r: Reading<seq<int>>)
    ensures Prepend(vals, Prepend([v], r)) == Prepend(vals + [v], r)
  {
    if r.Read? {
      assert vals + ([v] + r.value) == vals + [v] + r.value;
    }
  }

  // Values written back to back into a payload, which is then escaped, are read back,
  // and the parser stops exactly at their end.
  method ReadBack(payload: seq<Byte>, kinds: seq<Kind>, ghost vals: seq<int>, ghost tail: seq<Bit>)
    returns (p: Parser, read: seq<int>)
    requires AllFit(kinds, vals) && Bits(payload) == EncodeAll(kinds, vals) + tail
    ensures fresh(p) && p.Valid() && p.data == Escape(0, payload)
    ensures read == vals && p.Rest() == tail
  {
    hide BitsFrom, Decode, DecodeAll, Encode, EncodeAll, Bits, PayloadFrom, Escape;
    p := new Parser(Escape(0, payload));
    EscapedPayload(payload);
    DecodeEncodeAll(kinds, vals, tail);
    var status;
    status, read := ReadElements(p, kinds);
  }

  lemma EscapedPayload(payload: seq<Byte>)
    ensures PayloadFrom(Escape(0, payload), 0) == payload
  {
    PayloadIsUnescaped(Escape(0, payload), 0);
    assert Escape(0, payload)[0..] == Escape(0, payload);
    UnescapeEscape(0, payload);
  }
}
