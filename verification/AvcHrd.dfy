/**
  The parameters of the hypothetical reference decoder (ITU-T H.264, section
  E.1.2) and their parser (tsAVCHRDParameters.cpp).
 */
module AvcHrd {
  import opened Octets
  import opened AvcBits
  import opened AvcCodes
  import opened AvcElements
  import opened AvcParser
  import opened AvcSyntax

  // ----- Syntax -----

  // The bit rates, sizes and flags of n coded picture buffers.
  function CpbsSyntax(n: int, k: Syntax): Syntax
    decreases n
  {
    if n <= 0 then k
    else Item(KindUe, bitRate => Item(KindUe, cpbSize => Item(KindU(1), cbrFlag => CpbsSyntax(n - 1, k))))
  }

  function DelaysSyntax(k: Syntax): Syntax {
    Item(KindU(5), a => Item(KindU(5), b => Item(KindU(5), c => Item(KindU(5), d => k))))
  }

  function HrdSyntax(k: Syntax): Syntax {
    Item(KindUe, cnt => Item(KindU(4), a => Item(KindU(4), b => CpbsSyntax(cnt + 1, DelaysSyntax(k)))))
  }

  // The values of coded picture buffers in the order of the syntax.
  function CpbValues(bitRates: seq<int>, cpbSizes: seq<int>, cbrFlags: seq<int>): seq<int>
    requires |bitRates| == |cpbSizes| == |cbrFlags|
  {
    if bitRates == [] then []
    else
      var n := |bitRates| - 1;
      CpbValues(bitRates[..n], cpbSizes[..n], cbrFlags[..n]) + [bitRates[n], cpbSizes[n], cbrFlags[n]]
  }

  lemma OneMoreCpb(bitRates: seq<int>, cpbSizes: seq<int>, cbrFlags: seq<int>, a: int, b: int, c: int)
    requires |bitRates| == |cpbSizes| == |cbrFlags|
    ensures CpbValues(bitRates + [a], cpbSizes + [b], cbrFlags + [c])
            == CpbValues(bitRates, cpbSizes, cbrFlags) + [a, b, c]
  {
    var n := |bitRates|;
    assert (bitRates + [a])[..n] == bitRates && (cpbSizes + [b])[..n] == cpbSizes && (cbrFlags + [c])[..n] == cbrFlags;
  }

  // ----- The parser -----

  class HrdParameters {
    var valid: bool
    var cpbCntMinus1: int
    var bitRateScale: int
    var cpbSizeScale: int
    var bitRateValueMinus1: seq<int>
    var cpbSizeValueMinus1: seq<int>
    var cbrFlag: seq<int>
    var initialCpbRemovalDelayLengthMinus1: int
    var cpbRemovalDelayLengthMinus1: int
    var dpbOutputDelayLengthMinus1: int
    var timeOffsetLength: int

    // One bit rate, size and flag for each coded picture buffer.
    predicate Complete()
      reads this
    {
      |bitRateValueMinus1| == |cpbSizeValueMinus1| == |cbrFlag| == cpbCntMinus1 + 1
    }

    // All values, in the order of the syntax.
    function Values(): seq<int>
      requires Complete()
      reads this
    {
      HeaderValues() + CpbValues(bitRateValueMinus1, cpbSizeValueMinus1, cbrFlag) + DelayValues()
    }

    function HeaderValues(): seq<int>
      reads this
    {
      [cpbCntMinus1, bitRateScale, cpbSizeScale]
    }

    function DelayValues(): seq<int>
      reads this
    {
      [initialCpbRemovalDelayLengthMinus1, cpbRemovalDelayLengthMinus1, dpbOutputDelayLengthMinus1, timeOffsetLength]
    }

    predicate Cleared()
      reads this
    {
      && !valid && cpbCntMinus1 == bitRateScale == cpbSizeScale == 0
      && bitRateValueMinus1 == cpbSizeValueMinus1 == cbrFlag == []
      && initialCpbRemovalDelayLengthMinus1 == cpbRemovalDelayLengthMinus1 == dpbOutputDelayLengthMinus1
          == timeOffsetLength == 0
    }

    constructor ()
      ensures Cleared()
    {
      valid := false;
      cpbCntMinus1, bitRateScale, cpbSizeScale := 0, 0, 0;
      bitRateValueMinus1, cpbSizeValueMinus1, cbrFlag := [], [], [];
      initialCpbRemovalDelayLengthMinus1, cpbRemovalDelayLengthMinus1 := 0, 0;
      dpbOutputDelayLengthMinus1, timeOffsetLength := 0, 0;
    }

    method Clear()
      modifies this
      ensures Cleared()
    {
      valid := false;
      cpbCntMinus1, bitRateScale, cpbSizeScale := 0, 0, 0;
      bitRateValueMinus1, cpbSizeValueMinus1, cbrFlag := [], [], [];
      initialCpbRemovalDelayLengthMinus1, cpbRemovalDelayLengthMinus1 := 0, 0;
      dpbOutputDelayLengthMinus1, timeOffsetLength := 0, 0;
    }

    // Parse the parameters, alone or inside another structure. When they are valid, the
    // vectors have all their entries and all values are read.
    method Parse(p: Parser, ghost t: Trace, ghost k: Syntax) returns (status: Status, ghost t': Trace)
      requires At(p, Done, t) && t.rest == HrdSyntax(k)
      modifies this, p`byte, p`bit
      ensures p.Valid() && At(p, status, t') && t'.whole == t.whole && valid == (status == Done)
          && |p.Rest()| <= old(|p.Rest()|)
      ensures valid ==> Complete() && t' == Trace(t.whole, t.vals + Values(), k)
    {
      hide At, HrdSyntax, CpbsSyntax, DelaysSyntax, CpbValues, BitsFrom;
      Clear();
      status, t' := ParseHeader(p, t, k);
      if status == Done {
        NoCpb();
        assert t'.vals + [] == t'.vals;
        status, t' := ParseCpbs(p, t', DelaysSyntax(k));
      }
      if status == Done {
        NextCpb(0, DelaysSyntax(k));
        status, t' := ParseDelays(p, t', k);
        SameValues(t.vals, HeaderValues(), CpbValues(bitRateValueMinus1, cpbSizeValueMinus1, cbrFlag), DelayValues());
      }
      valid := status == Done;
    }

    // Parse the parameters alone. They are valid if and only if all of them are there, as
    // long as their values are in range and no byte is dropped among the last four ones.
    method ParseArea(area: seq<Byte>) returns (status: Status)
      modifies this
      ensures valid == (status == Done) && (valid ==> Complete())
      ensures var r := DecodeSyntax(HrdSyntax(End), Bits(PayloadFrom(area, 0)));
              && (r.Read? ==> valid && Values() == r.value) && (r.Truncated? ==> !valid)
              && (status == PastEnd && !r.OutOfRange? ==> !CleanEnd(area))
    {
      hide DecodeSyntax, HrdSyntax, BitsFrom, Bits, PayloadFrom, CleanEnd, At, HrdParameters.Values,
        HrdParameters.Complete;
      var p := new Parser(area);
      ghost var t := Begin(HrdSyntax(End), p.Rest());
      AtBegin(p, HrdSyntax(End));
      status, t := Parse(p, t, End);
      AtEnd(p, status, t);
    }

    method ParseHeader(p: Parser, ghost t: Trace, ghost k: Syntax) returns (status: Status, ghost t': Trace)
      requires At(p, Done, t) && t.rest == HrdSyntax(k)
      modifies this`cpbCntMinus1, this`bitRateScale, this`cpbSizeScale, p`byte, p`bit
      ensures p.Valid() && At(p, status, t') && t'.whole == t.whole && cpbCntMinus1 >= 0
              && |p.Rest()| <= old(|p.Rest()|)
      ensures status == Done ==>
          t' == Trace(t.whole, t.vals + HeaderValues(), CpbsSyntax(cpbCntMinus1 + 1, DelaysSyntax(k)))
    {
      hide At, CpbsSyntax, DelaysSyntax, BitsFrom;
      status, cpbCntMinus1, t' := ReadField(p, KindUe, t);
      if status == Done {
        status, bitRateScale, t' := ReadField(p, KindU(4), t');
      }
      if status == Done {
        status, cpbSizeScale, t' := ReadField(p, KindU(4), t');
      }
    }

    // The first n coded picture buffers are read.
    ghost predicate CpbsRead(t: Trace, t': Trace, n: int, k: Syntax)
      reads this
    {
      && |bitRateValueMinus1| == |cpbSizeValueMinus1| == |cbrFlag| == n
      && t' == Trace(t.whole, t.vals + CpbValues(bitRateValueMinus1, cpbSizeValueMinus1, cbrFlag),
        CpbsSyntax(cpbCntMinus1 + 1 - n, k))
    }

    // The loop over the coded picture buffers.
    method ParseCpbs(p: Parser, ghost t: Trace, ghost k: Syntax) returns (status: Status, ghost t': Trace)
      requires p.Valid() && At(p, Done, t) && CpbsRead(t, t, 0, k) && cpbCntMinus1 >= 0
      modifies this`bitRateValueMinus1, this`cpbSizeValueMinus1, this`cbrFlag, p`byte, p`bit
      ensures p.Valid() && At(p, status, t') && t'.whole == t.whole && |p.Rest()| <= old(|p.Rest()|)
      ensures status == Done ==> CpbsRead(t, t', cpbCntMinus1 + 1, k)
    {
      hide At, CpbsRead, BitsFrom;
      status, t' := Done, t;
      var i := 0;
      while status == Done && i <= cpbCntMinus1
        invariant p.Valid() && At(p, status, t') && 0 <= i <= cpbCntMinus1 + 1 && t'.whole == t.whole
        invariant status == Done ==> CpbsRead(t, t', i, k)
        invariant |p.Rest()| <= old(|p.Rest()|)
        decreases |p.Rest()|, status == Done
      {
        status, t' := ParseNextCpb(p, t, t', i, k);
        i := i + 1;
      }
    }

    method ParseNextCpb(p: Parser, ghost t: Trace, ghost t1: Trace, i: int, ghost k: Syntax)
      returns (status: Status, ghost t': Trace)
      requires p.Valid() && At(p, Done, t1) && t1.whole == t.whole && i <= cpbCntMinus1 && CpbsRead(t, t1, i, k)
      modifies this`bitRateValueMinus1, this`cpbSizeValueMinus1, this`cbrFlag, p`byte, p`bit
      ensures p.Valid() && At(p, status, t') && t'.whole == t.whole
      ensures |p.Rest()| <= old(|p.Rest()|) && (status == Done ==> |p.Rest()| < old(|p.Rest()|))
      ensures status == Done ==> CpbsRead(t, t', i + 1, k)
    {
      hide At, CpbsSyntax, CpbValues, BitsFrom;
      NextCpb(cpbCntMinus1 + 1 - i, k);
      ghost var bitRates, cpbSizes, cbrFlags, a, b, c := bitRateValueMinus1, cpbSizeValueMinus1, cbrFlag, 0, 0, 0;
      status, t', a, b, c := ParseCpb(p, t1, CpbsSyntax(cpbCntMinus1 - i, k));
      OneMoreCpb(bitRates, cpbSizes, cbrFlags, a, b, c);
      ghost var values := CpbValues(bitRates, cpbSizes, cbrFlags);
      assert t.vals + values + [a, b, c] == t.vals + (values + [a, b, c]);
    }

    method ParseCpb(p: Parser, ghost t: Trace, ghost k: Syntax)
      returns (status: Status, ghost t': Trace, ghost a: int, ghost b: int, ghost c: int)
      requires At(p, Done, t) && IsCpb(t.rest, k)
      modifies this`bitRateValueMinus1, this`cpbSizeValueMinus1, this`cbrFlag, p`byte, p`bit
      ensures p.Valid() && At(p, status, t') && t'.whole == t.whole
      ensures |p.Rest()| <= old(|p.Rest()|) && (status == Done ==> |p.Rest()| < old(|p.Rest()|))
      ensures status == Done ==> bitRateValueMinus1 == old(bitRateValueMinus1) + [a] && cbrFlag == old(cbrFlag) + [c]
      ensures status == Done ==>
          cpbSizeValueMinus1 == old(cpbSizeValueMinus1) + [b] && t' == Trace(t.whole, t.vals + [a, b, c], k)
    {
      hide At, BitsFrom;
      var xBitRate, xCpbSize, xFlag := 0, 0, 0;
      status, xBitRate, t' := ReadField(p, KindUe, t);
      if status == Done {
        status, xCpbSize, t' := ReadField(p, KindUe, t');
      }
      if status == Done {
        status, xFlag, t' := ReadField(p, KindU(1), t');
      }
      if status == Done {
        bitRateValueMinus1 := bitRateValueMinus1 + [xBitRate];
        cpbSizeValueMinus1 := cpbSizeValueMinus1 + [xCpbSize];
        cbrFlag := cbrFlag + [xFlag];
      }
      a, b, c := xBitRate, xCpbSize, xFlag;
    }

    method ParseDelays(p: Parser, ghost t: Trace, ghost k: Syntax) returns (status: Status, ghost t': Trace)
      requires At(p, Done, t) && t.rest == DelaysSyntax(k)
      modifies this`initialCpbRemovalDelayLengthMinus1, this`cpbRemovalDelayLengthMinus1,
               this`dpbOutputDelayLengthMinus1, this`timeOffsetLength, p`byte, p`bit
      ensures p.Valid() && At(p, status, t') && t'.whole == t.whole && |p.Rest()| <= old(|p.Rest()|)
      ensures status == Done ==> t' == Trace(t.whole, t.vals + DelayValues(), k)
    {
      hide At, BitsFrom;
      status, initialCpbRemovalDelayLengthMinus1, t' := ReadField(p, KindU(5), t);
      if status == Done {
        status, cpbRemovalDelayLengthMinus1, t' := ReadField(p, KindU(5), t');
      }
      if status == Done {
        status, dpbOutputDelayLengthMinus1, t' := ReadField(p, KindU(5), t');
      }
      if status == Done {
        status, timeOffsetLength, t' := ReadField(p, KindU(5), t');
      }
    }
  }

  // The syntax of one coded picture buffer before some other syntax.
  ghost predicate IsCpb(s: Syntax, k: Syntax) {
    s.Item? && s.kind == KindUe && forall a ::
      s.next(a).Item? && s.next(a).kind == KindUe && forall b ::
        s.next(a).next(b).Item? && s.next(a).next(b).kind == KindU(1) && forall c :: s.next(a).next(b).next(c) == k
  }

  lemma NextCpb(n: int, k: Syntax)
    ensures if n <= 0 then CpbsSyntax(n, k) == k else IsCpb(CpbsSyntax(n, k), CpbsSyntax(n - 1, k))
  {
  }

  lemma NoCpb()
    ensures CpbValues([], [], []) == []
  {
  }

  lemma SameValues(vals: seq<int>, a: seq<int>, b: seq<int>, c: seq<int>)
    ensures vals + a + b + c == vals + (a + b + c)
  {
  }
}
