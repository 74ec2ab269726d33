/**
  The video usability information of a sequence parameter set (ITU-T H.264, section
  E.1.1) and its parser (tsAVCVUIParameters.cpp), which may parse the parameters of two
  hypothetical reference decoders.
 */
module AvcVui {
  import opened Octets
  import opened AvcBits
  import opened AvcCodes
  import opened AvcElements
  import opened AvcHrd
  import opened AvcParser
  import opened AvcSyntax

  const EXTENDED_SAR := 255

  // ----- Syntax -----

  function AspectSyntax(k: Syntax): Syntax {
    Item(KindU(1), flag =>
      if flag != 1 then k
      else Item(KindU(8), idc =>
        if idc != EXTENDED_SAR then k else Item(KindU(16), w => Item(KindU(16), h => k))))
  }

  function OverscanSyntax(k: Syntax): Syntax {
    Item(KindU(1), flag => if flag != 1 then k else Item(KindU(1), a => k))
  }

  function SignalSyntax(k: Syntax): Syntax {
    Item(KindU(1), flag =>
      if flag != 1 then k
      else Item(KindU(3), a =>
          Item(KindU(1), b => Item(KindU(1), colour => if colour != 1 then k else ColourSyntax(k)))))
  }

  function ColourSyntax(k: Syntax): Syntax {
    Item(KindU(8), a => Item(KindU(8), b => Item(KindU(8), c => k)))
  }

  function ChromaSyntax(k: Syntax): Syntax {
    Item(KindU(1), flag => if flag != 1 then k else Item(KindUe, a => Item(KindUe, b => k)))
  }

  function TimingSyntax(k: Syntax): Syntax {
    Item(KindU(1), flag => if flag != 1 then k else Item(KindU(32), a => Item(KindU(32), b => Item(KindU(1), c => k))))
  }

  // The end of the structure, after both flags of reference decoders.
  function DelaySyntax(nal: int, vcl: int, k: Syntax): Syntax {
    if nal == 1 || vcl == 1 then Item(KindU(1), a => k) else k
  }

  function VclSyntax(nal: int, k: Syntax): Syntax {
    Item(KindU(1), vcl => if vcl == 1 then HrdSyntax(DelaySyntax(nal, vcl, k)) else DelaySyntax(nal, vcl, k))
  }

  function HrdsSyntax(k: Syntax): Syntax {
    Item(KindU(1), nal => if nal == 1 then HrdSyntax(VclSyntax(nal, k)) else VclSyntax(nal, k))
  }

  function RestrictionSyntax(k: Syntax): Syntax {
    Item(KindU(1), pic => Item(KindU(1), flag => if flag != 1 then k else LimitsSyntax(k)))
  }

  function LimitsSyntax(k: Syntax): Syntax {
    Item(KindU(1), a => Item(KindUe, b => Item(KindUe, c => BuffersSyntax(k))))
  }

  function BuffersSyntax(k: Syntax): Syntax {
    Item(KindUe, a => Item(KindUe, b => Item(KindUe, c => Item(KindUe, d => k))))
  }

  function PictureSyntax(k: Syntax): Syntax {
    AspectSyntax(OverscanSyntax(SignalSyntax(ChromaSyntax(k))))
  }

  function VuiSyntax(k: Syntax): Syntax {
    PictureSyntax(TimingSyntax(HrdsSyntax(RestrictionSyntax(k))))
  }

  // ----- The fields -----

  // The fields of each part of the structure. The values that are present are given in the
  // order of the syntax; the fields that are not present are zero.

  datatype Aspect = Aspect(infoPresent: int, idc: int, sarWidth: int, sarHeight: int)
  {
    function Values(): seq<int> {
      if infoPresent != 1 then [infoPresent]
      else if idc != EXTENDED_SAR then [infoPresent, idc]
      else [infoPresent, idc, sarWidth, sarHeight]
    }

    predicate AbsentAreZero() {
      (infoPresent != 1 ==> idc == 0) && (idc != EXTENDED_SAR ==> sarWidth == sarHeight == 0)
    }
  }

  datatype Overscan = Overscan(infoPresent: int, appropriate: int)
  {
    function Values(): seq<int> {
      if infoPresent != 1 then [infoPresent] else [infoPresent, appropriate]
    }

    predicate AbsentAreZero() {
      infoPresent != 1 ==> appropriate == 0
    }
  }

  datatype Signal = Signal(typePresent: int, format: int, fullRange: int, colourPresent: int,
                           primaries: int, transfer: int, matrix: int)
  {
    function Values(): seq<int> {
      if typePresent != 1 then [typePresent]
      else if colourPresent != 1 then [typePresent, format, fullRange, colourPresent]
      else [typePresent, format, fullRange, colourPresent, primaries, transfer, matrix]
    }

    predicate AbsentAreZero() {
      && (typePresent != 1 ==> format == fullRange == colourPresent == 0)
      && (colourPresent != 1 ==> primaries == transfer == matrix == 0)
    }
  }

  datatype Chroma = Chroma(infoPresent: int, topField: int, bottomField: int)
  {
    function Values(): seq<int> {
      if infoPresent != 1 then [infoPresent] else [infoPresent, topField, bottomField]
    }

    predicate AbsentAreZero() {
      infoPresent != 1 ==> topField == bottomField == 0
    }
  }

  datatype Timing = Timing(infoPresent: int, unitsInTick: int, timeScale: int, fixedFrameRate: int)
  {
    function Values(): seq<int> {
      if infoPresent != 1 then [infoPresent] else [infoPresent, unitsInTick, timeScale, fixedFrameRate]
    }

    predicate AbsentAreZero() {
      infoPresent != 1 ==> unitsInTick == timeScale == fixedFrameRate == 0
    }
  }

  datatype Restriction = Restriction(picStruct: int, present: int, motionOverBoundaries: int, maxBytesPerPic: int,
                                     maxBitsPerMb: int, maxMvHorizontal: int, maxMvVertical: int,
                                     reorderFrames: int, frameBuffering: int)
  {
    function Values(): seq<int> {
      if present != 1 then [picStruct, present]
      else [picStruct, present, motionOverBoundaries, maxBytesPerPic, maxBitsPerMb, maxMvHorizontal, maxMvVertical,
            reorderFrames, frameBuffering]
    }

    predicate AbsentAreZero() {
      present != 1 ==>
        && motionOverBoundaries == maxBytesPerPic == maxBitsPerMb == 0
        && maxMvHorizontal == maxMvVertical == reorderFrames == frameBuffering == 0
    }
  }

  const NO_ASPECT := Aspect(0, 0, 0, 0)
  const NO_OVERSCAN := Overscan(0, 0)
  const NO_SIGNAL := Signal(0, 0, 0, 0, 0, 0, 0)
  const NO_CHROMA := Chroma(0, 0, 0)
  const NO_TIMING := Timing(0, 0, 0, 0)
  const NO_RESTRICTION := Restriction(0, 0, 0, 0, 0, 0, 0, 0, 0)

  // ----- The parser -----

  class VuiParameters {
    var valid: bool
    var aspect: Aspect
    var overscan: Overscan
    var signal: Signal
    var chroma: Chroma
    var timing: Timing
    var nalHrdPresent: int
    const nalHrd: HrdParameters
    var vclHrdPresent: int
    const vclHrd: HrdParameters
    var lowDelayHrd: int
    var restriction: Restriction

    // Both reference decoders are complete if they are present.
    predicate CompleteHrds()
      reads this`nalHrdPresent, this`vclHrdPresent, nalHrd, vclHrd
    {
      (nalHrdPresent == 1 ==> nalHrd.Complete()) && (vclHrdPresent == 1 ==> vclHrd.Complete())
    }

    function NalValues(): seq<int>
      requires nalHrdPresent == 1 ==> nalHrd.Complete()
      reads this`nalHrdPresent, nalHrd
    {
      [nalHrdPresent] + if nalHrdPresent == 1 then nalHrd.Values() else []
    }

    function VclValues(): seq<int>
      requires vclHrdPresent == 1 ==> vclHrd.Complete()
      reads this`vclHrdPresent, vclHrd
    {
      [vclHrdPresent] + if vclHrdPresent == 1 then vclHrd.Values() else []
    }

    function DelayValues(): seq<int>
      reads this`nalHrdPresent, this`vclHrdPresent, this`lowDelayHrd
    {
      if nalHrdPresent == 1 || vclHrdPresent == 1 then [lowDelayHrd] else []
    }

    function HrdsValues(): seq<int>
      requires CompleteHrds()
      reads this`nalHrdPresent, this`vclHrdPresent, this`lowDelayHrd, nalHrd, vclHrd
    {
      NalValues() + VclValues() + DelayValues()
    }

    // All values that are present, in the order of the syntax.
    function Values(): seq<int>
      requires CompleteHrds()
      reads this`aspect, this`overscan, this`signal, this`chroma, this`timing, this`restriction,
            this`nalHrdPresent, this`vclHrdPresent, this`lowDelayHrd, nalHrd, vclHrd
    {
      PictureValues() + timing.Values() + HrdsValues() + restriction.Values()
    }

    function PictureValues(): seq<int>
      reads this`aspect, this`overscan, this`signal, this`chroma
    {
      aspect.Values() + overscan.Values() + signal.Values() + chroma.Values()
    }

    // The fields that are not present are zero.
    predicate AbsentAreZero()
      reads this`aspect, this`overscan, this`signal, this`chroma, this`timing, this`restriction,
            this`nalHrdPresent, this`vclHrdPresent, this`lowDelayHrd, nalHrd, vclHrd
    {
      PictureAbsentAreZero() && timing.AbsentAreZero() && HrdsAbsentAreZero() && restriction.AbsentAreZero()
    }

    predicate PictureAbsentAreZero()
      reads this`aspect, this`overscan, this`signal, this`chroma
    {
      aspect.AbsentAreZero() && overscan.AbsentAreZero() && signal.AbsentAreZero() && chroma.AbsentAreZero()
    }

    predicate HrdsAbsentAreZero()
      reads this`nalHrdPresent, this`vclHrdPresent, this`lowDelayHrd, nalHrd, vclHrd
    {
      && (nalHrdPresent != 1 ==> nalHrd.Cleared()) && (vclHrdPresent != 1 ==> vclHrd.Cleared())
      && (nalHrdPresent != 1 && vclHrdPresent != 1 ==> lowDelayHrd == 0)
    }

    predicate Cleared()
      reads this, nalHrd, vclHrd
    {
      && !valid && aspect == NO_ASPECT && overscan == NO_OVERSCAN && signal == NO_SIGNAL && chroma == NO_CHROMA
      && timing == NO_TIMING && restriction == NO_RESTRICTION
      && nalHrdPresent == vclHrdPresent == lowDelayHrd == 0 && nalHrd.Cleared() && vclHrd.Cleared()
    }

    constructor ()
      ensures fresh(nalHrd) && fresh(vclHrd) && nalHrd != vclHrd && Cleared()
    {
      valid := false;
      aspect, overscan, signal, chroma := NO_ASPECT, NO_OVERSCAN, NO_SIGNAL, NO_CHROMA;
      timing, restriction := NO_TIMING, NO_RESTRICTION;
      nalHrdPresent, vclHrdPresent, lowDelayHrd := 0, 0, 0;
      nalHrd := new HrdParameters();
      vclHrd := new HrdParameters();
    }

    method Clear()
      requires nalHrd != vclHrd
      modifies this, nalHrd, vclHrd
      ensures Cleared()
    {
      valid := false;
      aspect, overscan, signal, chroma := NO_ASPECT, NO_OVERSCAN, NO_SIGNAL, NO_CHROMA;
      timing, restriction := NO_TIMING, NO_RESTRICTION;
      nalHrdPresent, vclHrdPresent, lowDelayHrd := 0, 0, 0;
      nalHrd.Clear();
      vclHrd.Clear();
    }

    method ParseAspect(p: Parser, ghost t: Trace, ghost k: Syntax) returns (status: Status, ghost t': Trace)
      requires p.Valid() && At(p, Done, t) && t.rest == AspectSyntax(k) && aspect == NO_ASPECT
      modifies this`aspect, p`byte, p`bit
      ensures p.Valid() && At(p, status, t') && t'.whole == t.whole && |p.Rest()| <= old(|p.Rest()|)
      ensures status == Done ==> t' == Trace(t.whole, t.vals + aspect.Values(), k) && aspect.AbsentAreZero()
    {
      hide At, BitsFrom, DecodeSyntax;
      var v;
      status, v, t' := ReadField(p, KindU(1), t);
      aspect := aspect.(infoPresent := v);
      if status != Done || aspect.infoPresent != 1 {
        return;
      }
      status, v, t' := ReadField(p, KindU(8), t');
      aspect := aspect.(idc := v);
      if status != Done || aspect.idc != EXTENDED_SAR {
        return;
      }
      status, v, t' := ReadField(p, KindU(16), t');
      aspect := aspect.(sarWidth := v);
      if status != Done {
        return;
      }
      status, v, t' := ReadField(p, KindU(16), t');
      aspect := aspect.(sarHeight := v);
    }

    method ParseOverscan(p: Parser, ghost t: Trace, ghost k: Syntax) returns (status: Status, ghost t': Trace)
      requires p.Valid() && At(p, Done, t) && t.rest == OverscanSyntax(k) && overscan == NO_OVERSCAN
      modifies this`overscan, p`byte, p`bit
      ensures p.Valid() && At(p, status, t') && t'.whole == t.whole && |p.Rest()| <= old(|p.Rest()|)
      ensures status == Done ==> t' == Trace(t.whole, t.vals + overscan.Values(), k) && overscan.AbsentAreZero()
    {
      hide At, BitsFrom, DecodeSyntax;
      var v;
      status, v, t' := ReadField(p, KindU(1), t);
      overscan := overscan.(infoPresent := v);
      if status != Done || overscan.infoPresent != 1 {
        return;
      }
      status, v, t' := ReadField(p, KindU(1), t');
      overscan := overscan.(appropriate := v);
    }

    // The description of colours.
    method ParseColour(p: Parser, ghost t: Trace, ghost k: Syntax) returns (status: Status, ghost t': Trace)
      requires p.Valid() && At(p, Done, t) && t.rest == ColourSyntax(k)
      modifies this`signal, p`byte, p`bit
      ensures p.Valid() && At(p, status, t') && t'.whole == t.whole && |p.Rest()| <= old(|p.Rest()|)
      ensures status == Done ==> t' == Trace(t.whole, t.vals + [signal.primaries, signal.transfer, signal.matrix], k)
      ensures signal
              == old(signal).(primaries := signal.primaries, transfer := signal.transfer, matrix := signal.matrix)
    {
      hide At, BitsFrom, DecodeSyntax;
      var v;
      status, v, t' := ReadField(p, KindU(8), t);
      signal := signal.(primaries := v);
      if status != Done {
        return;
      }
      status, v, t' := ReadField(p, KindU(8), t');
      signal := signal.(transfer := v);
      if status != Done {
        return;
      }
      status, v, t' := ReadField(p, KindU(8), t');
      signal := signal.(matrix := v);
    }

    method ParseSignal(p: Parser, ghost t: Trace, ghost k: Syntax) returns (status: Status, ghost t': Trace)
      requires p.Valid() && At(p, Done, t) && t.rest == SignalSyntax(k) && signal == NO_SIGNAL
      modifies this`signal, p`byte, p`bit
      ensures p.Valid() && At(p, status, t') && t'.whole == t.whole && |p.Rest()| <= old(|p.Rest()|)
      ensures status == Done ==> t' == Trace(t.whole, t.vals + signal.Values(), k) && signal.AbsentAreZero()
    {
      hide At, BitsFrom, DecodeSyntax;
      var v;
      status, v, t' := ReadField(p, KindU(1), t);
      signal := signal.(typePresent := v);
      if status != Done || signal.typePresent != 1 {
        return;
      }
      status, v, t' := ReadField(p, KindU(3), t');
      signal := signal.(format := v);
      if status != Done {
        return;
      }
      status, v, t' := ReadField(p, KindU(1), t');
      signal := signal.(fullRange := v);
      if status != Done {
        return;
      }
      status, v, t' := ReadField(p, KindU(1), t');
      signal := signal.(colourPresent := v);
      if status != Done || signal.colourPresent != 1 {
        return;
      }
      status, t' := ParseColour(p, t', k);
    }

    method ParseChroma(p: Parser, ghost t: Trace, ghost k: Syntax) returns (status: Status, ghost t': Trace)
      requires p.Valid() && At(p, Done, t) && t.rest == ChromaSyntax(k) && chroma == NO_CHROMA
      modifies this`chroma, p`byte, p`bit
      ensures p.Valid() && At(p, status, t') && t'.whole == t.whole && |p.Rest()| <= old(|p.Rest()|)
      ensures status == Done ==> t' == Trace(t.whole, t.vals + chroma.Values(), k) && chroma.AbsentAreZero()
    {
      hide At, BitsFrom, DecodeSyntax;
      var v;
      status, v, t' := ReadField(p, KindU(1), t);
      chroma := chroma.(infoPresent := v);
      if status != Done || chroma.infoPresent != 1 {
        return;
      }
      status, v, t' := ReadField(p, KindUe, t');
      chroma := chroma.(topField := v);
      if status != Done {
        return;
      }
      status, v, t' := ReadField(p, KindUe, t');
      chroma := chroma.(bottomField := v);
    }

    method ParseTiming(p: Parser, ghost t: Trace, ghost k: Syntax) returns (status: Status, ghost t': Trace)
      requires p.Valid() && At(p, Done, t) && t.rest == TimingSyntax(k) && timing == NO_TIMING
      modifies this`timing, p`byte, p`bit
      ensures p.Valid() && At(p, status, t') && t'.whole == t.whole && |p.Rest()| <= old(|p.Rest()|)
      ensures status == Done ==> t' == Trace(t.whole, t.vals + timing.Values(), k) && timing.AbsentAreZero()
    {
      hide At, BitsFrom, DecodeSyntax;
      var v;
      status, v, t' := ReadField(p, KindU(1), t);
      timing := timing.(infoPresent := v);
      if status != Done || timing.infoPresent != 1 {
        return;
      }
      status, v, t' := ReadField(p, KindU(32), t');
      timing := timing.(unitsInTick := v);
      if status != Done {
        return;
      }
      status, v, t' := ReadField(p, KindU(32), t');
      timing := timing.(timeScale := v);
      if status != Done {
        return;
      }
      status, v, t' := ReadField(p, KindU(1), t');
      timing := timing.(fixedFrameRate := v);
    }

    // Both reference decoders, and the flag that is present if one of them is.
    method ParseHrds(p: Parser, ghost t: Trace, ghost k: Syntax) returns (status: Status, ghost t': Trace)
      requires p.Valid() && At(p, Done, t) && t.rest == HrdsSyntax(k) && nalHrd != vclHrd
      requires lowDelayHrd == 0 && nalHrd.Cleared() && vclHrd.Cleared()
      modifies this`nalHrdPresent, this`vclHrdPresent, this`lowDelayHrd, nalHrd, vclHrd, p`byte, p`bit
      ensures p.Valid() && At(p, status, t') && t'.whole == t.whole && |p.Rest()| <= old(|p.Rest()|)
      ensures status == Done ==> CompleteHrds() && t' == Trace(t.whole, t.vals + HrdsValues(), k) && HrdsAbsentAreZero()
    {
      hide At, BitsFrom, DecodeSyntax, HrdSyntax, VclSyntax, HrdsSyntax, HrdParameters.Values, HrdParameters.Complete,
        HrdParameters.Cleared;
      status, t' := ParseNal(p, t, k);
      if status != Done {
        return;
      }
      status, t' := ParseVcl(p, t', k);
      if status == Done && (nalHrdPresent == 1 || vclHrdPresent == 1) {
        status, lowDelayHrd, t' := ReadField(p, KindU(1), t');
      }
      if status == Done {
        ThreeParts(t.vals, NalValues(), VclValues(), DelayValues());
        assert t'.vals == t.vals + NalValues() + VclValues() + DelayValues();
      }
    }

    method ParseNal(p: Parser, ghost t: Trace, ghost k: Syntax) returns (status: Status, ghost t': Trace)
      requires p.Valid() && At(p, Done, t) && t.rest == HrdsSyntax(k) && nalHrd.Cleared()
      modifies this`nalHrdPresent, nalHrd, p`byte, p`bit
      ensures p.Valid() && At(p, status, t') && t'.whole == t.whole && |p.Rest()| <= old(|p.Rest()|)
      ensures status == Done ==> if nalHrdPresent == 1 then nalHrd.Complete() else nalHrd.Cleared()
      ensures status == Done ==> t' == Trace(t.whole, t.vals + NalValues(), VclSyntax(nalHrdPresent, k))
    {
      hide At, BitsFrom, DecodeSyntax, HrdSyntax, VclSyntax, HrdParameters.Values, HrdParameters.Complete,
        HrdParameters.Cleared;
      status, nalHrdPresent, t' := ReadField(p, KindU(1), t);
      if status == Done && nalHrdPresent == 1 {
        status, t' := nalHrd.Parse(p, t', VclSyntax(nalHrdPresent, k));
        if status == Done {
          assert t.vals + [nalHrdPresent] + nalHrd.Values() == t.vals + NalValues();
        }
      }
    }

    method ParseVcl(p: Parser, ghost t: Trace, ghost k: Syntax) returns (status: Status, ghost t': Trace)
      requires p.Valid() && At(p, Done, t) && t.rest == VclSyntax(nalHrdPresent, k) && vclHrd.Cleared()
      modifies this`vclHrdPresent, vclHrd, p`byte, p`bit
      ensures p.Valid() && At(p, status, t') && t'.whole == t.whole && |p.Rest()| <= old(|p.Rest()|)
      ensures status == Done ==> if vclHrdPresent == 1 then vclHrd.Complete() else vclHrd.Cleared()
      ensures status == Done ==>
              t' == Trace(t.whole, t.vals + VclValues(), DelaySyntax(nalHrdPresent, vclHrdPresent, k))
    {
      hide At, BitsFrom, DecodeSyntax, HrdSyntax, DelaySyntax, HrdParameters.Values, HrdParameters.Complete,
        HrdParameters.Cleared;
      status, vclHrdPresent, t' := ReadField(p, KindU(1), t);
      if status == Done && vclHrdPresent == 1 {
        status, t' := vclHrd.Parse(p, t', DelaySyntax(nalHrdPresent, vclHrdPresent, k));
        if status == Done {
          assert t.vals + [vclHrdPresent] + vclHrd.Values() == t.vals + VclValues();
        }
      }
    }

    // The limits on the bitstream.
    method ParseLimits(p: Parser, ghost t: Trace, ghost k: Syntax) returns (status: Status, ghost t': Trace)
      requires p.Valid() && At(p, Done, t) && t.rest == LimitsSyntax(k)
      modifies this`restriction, p`byte, p`bit
      ensures p.Valid() && At(p, status, t') && t'.whole == t.whole && |p.Rest()| <= old(|p.Rest()|)
      ensures status == Done ==>
          t' == Trace(t.whole, t.vals + [restriction.motionOverBoundaries, restriction.maxBytesPerPic,
          restriction.maxBitsPerMb], BuffersSyntax(k))
      ensures restriction == old(restriction).(motionOverBoundaries := restriction.motionOverBoundaries,
          maxBytesPerPic := restriction.maxBytesPerPic, maxBitsPerMb := restriction.maxBitsPerMb)
    {
      hide At, BitsFrom, DecodeSyntax, BuffersSyntax;
      var v;
      status, v, t' := ReadField(p, KindU(1), t);
      restriction := restriction.(motionOverBoundaries := v);
      if status != Done {
        return;
      }
      status, v, t' := ReadField(p, KindUe, t');
      restriction := restriction.(maxBytesPerPic := v);
      if status != Done {
        return;
      }
      status, v, t' := ReadField(p, KindUe, t');
      restriction := restriction.(maxBitsPerMb := v);
    }

    // Motion vectors and buffers.
    method ParseBuffers(p: Parser, ghost t: Trace, ghost k: Syntax) returns (status: Status, ghost t': Trace)
      requires p.Valid() && At(p, Done, t) && t.rest == BuffersSyntax(k)
      modifies this`restriction, p`byte, p`bit
      ensures p.Valid() && At(p, status, t') && t'.whole == t.whole && |p.Rest()| <= old(|p.Rest()|)
      ensures status == Done ==>
          t' == Trace(t.whole, t.vals + [restriction.maxMvHorizontal, restriction.maxMvVertical,
          restriction.reorderFrames, restriction.frameBuffering], k)
      ensures restriction == old(restriction).(maxMvHorizontal := restriction.maxMvHorizontal,
          maxMvVertical := restriction.maxMvVertical, reorderFrames := restriction.reorderFrames,
          frameBuffering := restriction.frameBuffering)
    {
      hide At, BitsFrom, DecodeSyntax;
      var v;
      status, v, t' := ReadField(p, KindUe, t);
      restriction := restriction.(maxMvHorizontal := v);
      if status != Done {
        return;
      }
      status, v, t' := ReadField(p, KindUe, t');
      restriction := restriction.(maxMvVertical := v);
      if status != Done {
        return;
      }
      status, v, t' := ReadField(p, KindUe, t');
      restriction := restriction.(reorderFrames := v);
      if status != Done {
        return;
      }
      status, v, t' := ReadField(p, KindUe, t');
      restriction := restriction.(frameBuffering := v);
    }

    method ParseRestriction(p: Parser, ghost t: Trace, ghost k: Syntax) returns (status: Status, ghost t': Trace)
      requires p.Valid() && At(p, Done, t) && t.rest == RestrictionSyntax(k) && restriction == NO_RESTRICTION
      modifies this`restriction, p`byte, p`bit
      ensures p.Valid() && At(p, status, t') && t'.whole == t.whole && |p.Rest()| <= old(|p.Rest()|)
      ensures status == Done ==> t' == Trace(t.whole, t.vals + restriction.Values(), k) && restriction.AbsentAreZero()
    {
      hide At, BitsFrom, DecodeSyntax;
      var v;
      status, v, t' := ReadField(p, KindU(1), t);
      restriction := restriction.(picStruct := v);
      if status != Done {
        return;
      }
      status, v, t' := ReadField(p, KindU(1), t');
      restriction := restriction.(present := v);
      if status != Done || restriction.present != 1 {
        return;
      }
      status, t' := ParseLimits(p, t', k);
      if status != Done {
        return;
      }
      status, t' := ParseBuffers(p, t', k);
    }

    // The parts about the pictures.
    method ParsePicture(p: Parser, ghost t: Trace, ghost k: Syntax) returns (status: Status, ghost t': Trace)
      requires p.Valid() && At(p, Done, t) && t.rest == PictureSyntax(k)
      requires aspect == NO_ASPECT && overscan == NO_OVERSCAN && signal == NO_SIGNAL && chroma == NO_CHROMA
      modifies this`aspect, this`overscan, this`signal, this`chroma, p`byte, p`bit
      ensures p.Valid() && At(p, status, t') && t'.whole == t.whole && |p.Rest()| <= old(|p.Rest()|)
      ensures status == Done ==> t' == Trace(t.whole, t.vals + PictureValues(), k) && PictureAbsentAreZero()
    {
      hide At, BitsFrom, DecodeSyntax, AspectSyntax, OverscanSyntax, SignalSyntax, ChromaSyntax,
        Aspect.Values, Overscan.Values, Signal.Values, Chroma.Values;
      status, t' := ParseAspect(p, t, OverscanSyntax(SignalSyntax(ChromaSyntax(k))));
      if status != Done {
        return;
      }
      status, t' := ParseOverscan(p, t', SignalSyntax(ChromaSyntax(k)));
      if status != Done {
        return;
      }
      status, t' := ParseSignal(p, t', ChromaSyntax(k));
      if status != Done {
        return;
      }
      status, t' := ParseChroma(p, t', k);
      FourParts(t.vals, aspect.Values(), overscan.Values(), signal.Values(), chroma.Values());
    }

    // Parse the structure. When it is valid, both reference decoders that are present have
    // all their entries, all values are read, and the fields that are not present are zero.
    method Parse(p: Parser, ghost t: Trace, ghost k: Syntax) returns (status: Status, ghost t': Trace)
      requires p.Valid() && At(p, Done, t) && t.rest == VuiSyntax(k) && nalHrd != vclHrd
      modifies this, nalHrd, vclHrd, p`byte, p`bit
      ensures p.Valid() && At(p, status, t') && t'.whole == t.whole && valid == (status == Done)
          && |p.Rest()| <= old(|p.Rest()|)
      ensures valid ==> CompleteHrds() && t' == Trace(t.whole, t.vals + Values(), k) && AbsentAreZero()
    {
      hide At, BitsFrom, VuiSyntax, VuiParameters.Values, VuiParameters.AbsentAreZero, VuiParameters.CompleteHrds;
      Clear();
      status, t' := ParseParts(p, t, k);
      valid := status == Done;
    }

    method ParseParts(p: Parser, ghost t: Trace, ghost k: Syntax) returns (status: Status, ghost t': Trace)
      requires p.Valid() && At(p, Done, t) && t.rest == VuiSyntax(k) && nalHrd != vclHrd && Cleared()
      modifies this, nalHrd, vclHrd, p`byte, p`bit
      ensures p.Valid() && At(p, status, t') && t'.whole == t.whole && |p.Rest()| <= old(|p.Rest()|)
      ensures status == Done ==> CompleteHrds() && t' == Trace(t.whole, t.vals + Values(), k) && AbsentAreZero()
    {
      hide At, BitsFrom, DecodeSyntax, PictureSyntax, TimingSyntax, HrdsSyntax, RestrictionSyntax, Timing.Values,
        Restriction.Values,
        VuiParameters.PictureValues, VuiParameters.HrdsValues, VuiParameters.PictureAbsentAreZero,
          VuiParameters.HrdsAbsentAreZero,
        VuiParameters.CompleteHrds, HrdParameters.Cleared;
      status, t' := ParsePicture(p, t, TimingSyntax(HrdsSyntax(RestrictionSyntax(k))));
      if status != Done {
        return;
      }
      status, t' := ParseTiming(p, t', HrdsSyntax(RestrictionSyntax(k)));
      if status != Done {
        return;
      }
      status, t' := ParseHrds(p, t', RestrictionSyntax(k));
      if status != Done {
        return;
      }
      status, t' := ParseRestriction(p, t', k);
      FourParts(t.vals, PictureValues(), timing.Values(), HrdsValues(), restriction.Values());
    }

    // Parse the structure alone. It is valid if and only if all of it is there, as long as
    // its values are in range and no byte is dropped among the last four ones.
    method ParseArea(area: seq<Byte>) returns (status: Status)
      requires nalHrd != vclHrd
      modifies this, nalHrd, vclHrd
      ensures valid == (status == Done) && (valid ==> CompleteHrds() && AbsentAreZero())
      ensures var r := DecodeSyntax(VuiSyntax(End), Bits(PayloadFrom(area, 0)));
              && (r.Read? ==> valid && Values() == r.value) && (r.Truncated? ==> !valid)
              && (status == PastEnd && !r.OutOfRange? ==> !CleanEnd(area))
    {
      hide DecodeSyntax, VuiSyntax, BitsFrom, Bits, PayloadFrom, CleanEnd, At,
        VuiParameters.Values, VuiParameters.AbsentAreZero, VuiParameters.CompleteHrds;
      var p := new Parser(area);
      ghost var t := Begin(VuiSyntax(End), p.Rest());
      AtBegin(p, VuiSyntax(End));
      status, t := Parse(p, t, End);
      AtEnd(p, status, t);
    }
  }

  lemma ThreeParts(vals: seq<int>, a: seq<int>, b: seq<int>, c: seq<int>)
    ensures vals + a + b + c == vals + (a + b + c)
  {
  }

  lemma FourParts(vals: seq<int>, a: seq<int>, b: seq<int>, c: seq<int>, d: seq<int>)
    ensures vals + a + b + c + d == vals + (a + b + c + d)
  {
  }
}
