/**
  The layout of Advanced Video Coding structures (ITU-T H.264, sections 7.3.2.1.1, E.1.1
  and E.1.2), element by element: the kinds of the values and the fields that hold them,
  in the order of the standard.
 */
module AvcLayout {
  import opened AvcElements
  import opened AvcSyntax
  import opened AvcHrd
  import opened AvcVui
  import opened AvcSps

  // The kinds of the values of each part, with all its flags set.
  const ASPECT := [KindU(1), KindU(8), KindU(16), KindU(16)]
  const OVERSCAN := [KindU(1), KindU(1)]
  const SIGNAL := [KindU(1), KindU(3), KindU(1), KindU(1), KindU(8), KindU(8), KindU(8)]
  const CHROMA := [KindU(1), KindUe, KindUe]
  const TIMING := [KindU(1), KindU(32), KindU(32), KindU(1)]
  const NO_HRD := [KindU(1), KindU(1)]
  const RESTRICTION := [KindU(1), KindU(1), KindU(1), KindUe, KindUe, KindUe, KindUe, KindUe, KindUe]
  const HEADER := [KindU(8), KindU(1), KindU(1), KindU(1), KindU(1), KindU(4), KindU(8), KindUe]
  const EXTENSION := [KindUe8, KindUe, KindUe, KindU(1), KindU(1)]
  const EXTENSION_PLANE := [KindUe8, KindU(1), KindUe, KindUe, KindU(1), KindU(1)]
  const ORDER_ZERO := [KindUe, KindUe, KindUe]
  const ORDER_ONE := [KindUe, KindUe, KindU(1), KindSe, KindSe, KindUe, KindSe, KindSe]
  const PICTURE := [KindUe, KindU(1), KindUe, KindUe, KindU(1), KindU(1)]
  const CROPPING := [KindU(1), KindU(1), KindUe, KindUe, KindUe, KindUe]

  // ----- The parameters of a reference decoder -----

  function CpbKinds(n: nat): (kinds: seq<Kind>)
    ensures |kinds| == 3 * n
  {
    if n == 0 then [] else [KindUe, KindUe, KindU(1)] + CpbKinds(n - 1)
  }

  lemma {:induction false} CpbsLayout(k: Syntax, n: nat, vals: seq<int>)
    requires |vals| == 3 * n
    ensures Part(CpbsSyntax(n, k), CpbKinds(n), vals, k)
  {
    if n > 0 {
      CpbsLayout(k, n - 1, vals[3..]);
      OneCpbLayout(n, k, vals[0], vals[1], vals[2]);
      hide Part, CpbsSyntax;
      Join(CpbsSyntax(n, k), [KindUe, KindUe, KindU(1)], [vals[0], vals[1], vals[2]], CpbsSyntax(n - 1, k),
           CpbKinds(n - 1), vals[3..], k);
      assert [vals[0], vals[1], vals[2]] + vals[3..] == vals;
    }
  }

  lemma OneCpbLayout(n: nat, k: Syntax, a: int, b: int, c: int)
    requires n > 0
    ensures Part(CpbsSyntax(n, k), [KindUe, KindUe, KindU(1)], [a, b, c], CpbsSyntax(n - 1, k))
  {
    NextCpb(n, k);
    hide CpbsSyntax;
    var s, vals := CpbsSyntax(n, k), [a, b, c];
    assert Remaining(s, vals, 1) == s.next(a);
    assert Remaining(s, vals, 2) == s.next(a).next(b);
  }

  lemma HrdHeaderLayout(k: Syntax, cnt: int, rateScale: int, sizeScale: int)
    ensures Part(HrdSyntax(k), [KindUe, KindU(4), KindU(4)], [cnt, rateScale, sizeScale],
                 CpbsSyntax(cnt + 1, DelaysSyntax(k)))
  {
    var s, vals := HrdSyntax(k), [cnt, rateScale, sizeScale];
    var r1 := s.next(vals[0]);
    assert Remaining(s, vals, 1) == r1 && r1.Item?;
    var r2 := r1.next(vals[1]);
    assert Remaining(s, vals, 2) == r2 && r2.Item?;
  }

  lemma DelaysLayout(k: Syntax, a: int, b: int, c: int, d: int)
    ensures Part(DelaysSyntax(k), [KindU(5), KindU(5), KindU(5), KindU(5)], [a, b, c, d], k)
  {
    var s, vals := DelaysSyntax(k), [a, b, c, d];
    var r1 := s.next(vals[0]);
    assert Remaining(s, vals, 1) == r1 && r1.Item?;
    var r2 := r1.next(vals[1]);
    assert Remaining(s, vals, 2) == r2 && r2.Item?;
    var r3 := r2.next(vals[2]);
    assert Remaining(s, vals, 3) == r3 && r3.Item?;
  }

  // The kinds of all values, for any number of coded picture buffers.
  lemma HrdLayout(k: Syntax, cnt: nat, rateScale: int, sizeScale: int, cpbs: seq<int>, a: int, b: int, c: int, d: int)
    requires |cpbs| == 3 * (cnt + 1)
    ensures Part(HrdSyntax(k),
            [KindUe, KindU(4), KindU(4)] + CpbKinds(cnt + 1) + [KindU(5), KindU(5), KindU(5), KindU(5)],
                 [cnt, rateScale, sizeScale] + cpbs + [a, b, c, d], k)
  {
    hide Part, HrdSyntax, CpbsSyntax, DelaysSyntax;
    HrdHeaderLayout(k, cnt, rateScale, sizeScale);
    CpbsLayout(DelaysSyntax(k), cnt + 1, cpbs);
    DelaysLayout(k, a, b, c, d);
    Join(HrdSyntax(k), [KindUe, KindU(4), KindU(4)], [cnt, rateScale, sizeScale], CpbsSyntax(cnt + 1, DelaysSyntax(k)),
         CpbKinds(cnt + 1), cpbs, DelaysSyntax(k));
    Join(HrdSyntax(k), [KindUe, KindU(4), KindU(4)] + CpbKinds(cnt + 1), [cnt, rateScale, sizeScale] + cpbs,
         DelaysSyntax(k), [KindU(5), KindU(5), KindU(5), KindU(5)], [a, b, c, d], k);
  }

  // The fields that hold them.
  lemma HrdFields(hrd: HrdParameters)
    requires hrd.Complete() && hrd.cpbCntMinus1 >= 0
    ensures var vals, n := hrd.Values(), hrd.cpbCntMinus1 + 1;
            && |vals| == 3 * n + 7
            && vals[0] == hrd.cpbCntMinus1 && vals[1] == hrd.bitRateScale && vals[2] == hrd.cpbSizeScale
            && (forall i :: 0 <= i < n ==>
                  && vals[3 + 3 * i] == hrd.bitRateValueMinus1[i] && vals[4 + 3 * i] == hrd.cpbSizeValueMinus1[i]
                  && vals[5 + 3 * i] == hrd.cbrFlag[i])
            && vals[3 * n + 3] == hrd.initialCpbRemovalDelayLengthMinus1
            && vals[3 * n + 4] == hrd.cpbRemovalDelayLengthMinus1
            && vals[3 * n + 5] == hrd.dpbOutputDelayLengthMinus1 && vals[3 * n + 6] == hrd.timeOffsetLength
  {
    CpbsAt(hrd.bitRateValueMinus1, hrd.cpbSizeValueMinus1, hrd.cbrFlag);
    hide CpbValues;
  }

  lemma {:induction false} CpbsAt(bitRates: seq<int>, cpbSizes: seq<int>, cbrFlags: seq<int>)
    requires |bitRates| == |cpbSizes| == |cbrFlags|
    ensures var vals := CpbValues(bitRates, cpbSizes, cbrFlags);
            && |vals| == 3 * |bitRates|
            && forall i :: 0 <= i < |bitRates| ==>
                 vals[3 * i] == bitRates[i] && vals[1 + 3 * i] == cpbSizes[i] && vals[2 + 3 * i] == cbrFlags[i]
  {
    if bitRates != [] {
      var n := |bitRates| - 1;
      CpbsAt(bitRates[..n], cpbSizes[..n], cbrFlags[..n]);
    }
  }

  // ----- Video usability information -----

  lemma AspectLayout(k: Syntax, v: Aspect)
    requires v.infoPresent == 1 && v.idc == 255
    ensures v.Values() == [1, 255, v.sarWidth, v.sarHeight] && Part(AspectSyntax(k), ASPECT, v.Values(), k)
  {
    var s, vals := AspectSyntax(k), [1, 255, v.sarWidth, v.sarHeight];
    var r1 := s.next(vals[0]);
    assert Remaining(s, vals, 1) == r1 && r1.Item?;
    var r2 := r1.next(vals[1]);
    assert Remaining(s, vals, 2) == r2 && r2.Item?;
    var r3 := r2.next(vals[2]);
    assert Remaining(s, vals, 3) == r3 && r3.Item?;
    var r4 := r3.next(vals[3]);
  }

  lemma OverscanLayout(k: Syntax, v: Overscan)
    requires v.infoPresent == 1
    ensures v.Values() == [1, v.appropriate] && Part(OverscanSyntax(k), OVERSCAN, v.Values(), k)
  {
    var s, vals := OverscanSyntax(k), [1, v.appropriate];
    var r1 := s.next(vals[0]);
    assert Remaining(s, vals, 1) == r1 && r1.Item?;
    var r2 := r1.next(vals[1]);
  }

  lemma SignalLayout(k: Syntax, v: Signal)
    requires v.typePresent == v.colourPresent == 1
    ensures v.Values() == [1, v.format, v.fullRange, 1, v.primaries, v.transfer, v.matrix]
    ensures Part(SignalSyntax(k), SIGNAL, v.Values(), k)
  {
    var s, vals := SignalSyntax(k), [1, v.format, v.fullRange, 1, v.primaries, v.transfer, v.matrix];
    var r1 := s.next(vals[0]);
    assert Remaining(s, vals, 1) == r1 && r1.Item?;
    var r2 := r1.next(vals[1]);
    assert Remaining(s, vals, 2) == r2 && r2.Item?;
    var r3 := r2.next(vals[2]);
    assert Remaining(s, vals, 3) == r3 && r3.Item?;
    var r4 := r3.next(vals[3]);
    assert Remaining(s, vals, 4) == r4 && r4.Item?;
    var r5 := r4.next(vals[4]);
    assert Remaining(s, vals, 5) == r5 && r5.Item?;
    var r6 := r5.next(vals[5]);
    assert Remaining(s, vals, 6) == r6 && r6.Item?;
    var r7 := r6.next(vals[6]);
  }

  lemma ChromaLayout(k: Syntax, v: Chroma)
    requires v.infoPresent == 1
    ensures v.Values() == [1, v.topField, v.bottomField] && Part(ChromaSyntax(k), CHROMA, v.Values(), k)
  {
    var s, vals := ChromaSyntax(k), [1, v.topField, v.bottomField];
    var r1 := s.next(vals[0]);
    assert Remaining(s, vals, 1) == r1 && r1.Item?;
    var r2 := r1.next(vals[1]);
    assert Remaining(s, vals, 2) == r2 && r2.Item?;
    var r3 := r2.next(vals[2]);
  }

  lemma TimingLayout(k: Syntax, v: Timing)
    requires v.infoPresent == 1
    ensures v.Values() == [1, v.unitsInTick, v.timeScale, v.fixedFrameRate]
    ensures Part(TimingSyntax(k), TIMING, v.Values(), k)
  {
    var s, vals := TimingSyntax(k), [1, v.unitsInTick, v.timeScale, v.fixedFrameRate];
    var r1 := s.next(vals[0]);
    assert Remaining(s, vals, 1) == r1 && r1.Item?;
    var r2 := r1.next(vals[1]);
    assert Remaining(s, vals, 2) == r2 && r2.Item?;
    var r3 := r2.next(vals[2]);
    assert Remaining(s, vals, 3) == r3 && r3.Item?;
    var r4 := r3.next(vals[3]);
  }

  lemma RestrictionLayout(k: Syntax, v: Restriction)
    requires v.present == 1
    ensures v.Values() == [v.picStruct, 1, v.motionOverBoundaries, v.maxBytesPerPic, v.maxBitsPerMb, v.maxMvHorizontal,
            v.maxMvVertical, v.reorderFrames, v.frameBuffering]
    ensures Part(RestrictionSyntax(k), RESTRICTION, v.Values(), k)
  {
    var s, vals := RestrictionSyntax(k), [v.picStruct, 1, v.motionOverBoundaries, v.maxBytesPerPic, v.maxBitsPerMb,
        v.maxMvHorizontal, v.maxMvVertical, v.reorderFrames, v.frameBuffering];
    var r1 := s.next(vals[0]);
    assert Remaining(s, vals, 1) == r1 && r1.Item?;
    var r2 := r1.next(vals[1]);
    assert Remaining(s, vals, 2) == r2 && r2.Item?;
    var r3 := r2.next(vals[2]);
    assert Remaining(s, vals, 3) == r3 && r3.Item?;
    var r4 := r3.next(vals[3]);
    assert Remaining(s, vals, 4) == r4 && r4.Item?;
    var r5 := r4.next(vals[4]);
    assert Remaining(s, vals, 5) == r5 && r5.Item?;
    var r6 := r5.next(vals[5]);
    assert Remaining(s, vals, 6) == r6 && r6.Item?;
    var r7 := r6.next(vals[6]);
    assert Remaining(s, vals, 7) == r7 && r7.Item?;
    var r8 := r7.next(vals[7]);
    assert Remaining(s, vals, 8) == r8 && r8.Item?;
    var r9 := r8.next(vals[8]);
  }

  // Two reference decoders, and the flag that is present if one of them is.
  lemma HrdsLayout(k: Syntax, nalKinds: seq<Kind>, nal: seq<int>, vclKinds: seq<Kind>, vcl: seq<int>, lowDelay: int)
    requires Part(HrdSyntax(VclSyntax(1, k)), nalKinds, nal, VclSyntax(1, k))
    requires Part(HrdSyntax(DelaySyntax(1, 1, k)), vclKinds, vcl, DelaySyntax(1, 1, k))
    ensures Part(HrdsSyntax(k), [KindU(1)] + nalKinds + [KindU(1)] + vclKinds + [KindU(1)],
                 [1] + nal + [1] + vcl + [lowDelay], k)
  {
    var n, v, d := VclSyntax(1, k), HrdSyntax(DelaySyntax(1, 1, k)), DelaySyntax(1, 1, k);
    assert Remaining(HrdsSyntax(k), [1], 1) == HrdSyntax(n) && Remaining(n, [1], 1) == v;
    assert Remaining(d, [lowDelay], 1) == k;
    assert Part(HrdsSyntax(k), [KindU(1)], [1], HrdSyntax(n)) && Part(n, [KindU(1)], [1], v);
    assert Part(d, [KindU(1)], [lowDelay], k);
    hide Part, HrdsSyntax, HrdSyntax, VclSyntax, DelaySyntax;
    var s := HrdsSyntax(k);
    Join(s, [KindU(1)], [1], HrdSyntax(n), nalKinds, nal, n);
    Join(s, [KindU(1)] + nalKinds, [1] + nal, n, [KindU(1)], [1], v);
    Join(s, [KindU(1)] + nalKinds + [KindU(1)], [1] + nal + [1], v, vclKinds, vcl, d);
    Join(s, [KindU(1)] + nalKinds + [KindU(1)] + vclKinds, [1] + nal + [1] + vcl, d, [KindU(1)], [lowDelay], k);
  }

  lemma NoHrdLayout(k: Syntax)
    ensures Part(HrdsSyntax(k), NO_HRD, [0, 0], k)
  {
    var s, vals := HrdsSyntax(k), [0, 0];
    var r1 := s.next(vals[0]);
    assert Remaining(s, vals, 1) == r1 && r1.Item?;
  }

  // ----- Sequence parameter sets -----

  lemma HeaderLayout(k: Syntax, v: Header)
    ensures v.Values() == [v.profile, v.set0, v.set1, v.set2, v.set3, v.reserved, v.level, v.id]
    ensures Part(HeaderSyntax(k), HEADER, v.Values(), ExtensionSyntax(v.profile, k))
  {
    var s, vals := HeaderSyntax(k), [v.profile, v.set0, v.set1, v.set2, v.set3, v.reserved, v.level, v.id];
    var r1 := s.next(vals[0]);
    assert Remaining(s, vals, 1) == r1 && r1.Item?;
    var r2 := r1.next(vals[1]);
    assert Remaining(s, vals, 2) == r2 && r2.Item?;
    var r3 := r2.next(vals[2]);
    assert Remaining(s, vals, 3) == r3 && r3.Item?;
    var r4 := r3.next(vals[3]);
    assert Remaining(s, vals, 4) == r4 && r4.Item?;
    var r5 := r4.next(vals[4]);
    assert Remaining(s, vals, 5) == r5 && r5.Item?;
    var r6 := r5.next(vals[5]);
    assert Remaining(s, vals, 6) == r6 && r6.Item?;
    var r7 := r6.next(vals[6]);
    assert Remaining(s, vals, 7) == r7 && r7.Item?;
    var r8 := r7.next(vals[7]);
  }

  lemma ExtensionLayout(k: Syntax, v: Extension, profile: int)
    requires profile in {44, 83, 86, 100, 110, 122, 244} && v.chromaFormat != 3 && v.matrixPresent == 0
    ensures v.Values([]) == [v.chromaFormat, v.lumaDepth, v.chromaDepth, v.bypass, 0]
    ensures Part(ExtensionSyntax(profile, k), EXTENSION, v.Values([]), k)
  {
    var s, vals := ExtensionSyntax(profile, k), [v.chromaFormat, v.lumaDepth, v.chromaDepth, v.bypass, 0];
    var r1 := s.next(vals[0]);
    assert Remaining(s, vals, 1) == r1 && r1.Item?;
    var r2 := r1.next(vals[1]);
    assert Remaining(s, vals, 2) == r2 && r2.Item?;
    var r3 := r2.next(vals[2]);
    assert Remaining(s, vals, 3) == r3 && r3.Item?;
    var r4 := r3.next(vals[3]);
    assert Remaining(s, vals, 4) == r4 && r4.Item?;
    var r5 := r4.next(vals[4]);
  }

  lemma PlaneLayout(k: Syntax, v: Extension, profile: int)
    requires profile in {44, 83, 86, 100, 110, 122, 244} && v.chromaFormat == 3 && v.matrixPresent == 0
    ensures v.Values([]) == [3, v.separatePlane, v.lumaDepth, v.chromaDepth, v.bypass, 0]
    ensures Part(ExtensionSyntax(profile, k), EXTENSION_PLANE, v.Values([]), k)
  {
    var s, vals := ExtensionSyntax(profile, k), [3, v.separatePlane, v.lumaDepth, v.chromaDepth, v.bypass, 0];
    var r1 := s.next(vals[0]);
    assert Remaining(s, vals, 1) == r1 && r1.Item?;
    var r2 := r1.next(vals[1]);
    assert Remaining(s, vals, 2) == r2 && r2.Item?;
    var r3 := r2.next(vals[2]);
    assert Remaining(s, vals, 3) == r3 && r3.Item?;
    var r4 := r3.next(vals[3]);
    assert Remaining(s, vals, 4) == r4 && r4.Item?;
    var r5 := r4.next(vals[4]);
    assert Remaining(s, vals, 5) == r5 && r5.Item?;
    var r6 := r5.next(vals[5]);
  }

  lemma NoExtensionLayout(k: Syntax, profile: int)
    requires profile !in {44, 83, 86, 100, 110, 122, 244}
    ensures ExtensionSyntax(profile, k) == k
  {
  }

  lemma OrderZeroLayout(k: Syntax, v: Order)
    requires v.orderType == 0
    ensures v.Values([]) == [v.log2MaxFrameNum, 0, v.log2MaxLsb] && Part(OrderSyntax(k), ORDER_ZERO, v.Values([]), k)
  {
    var s, vals := OrderSyntax(k), [v.log2MaxFrameNum, 0, v.log2MaxLsb];
    var r1 := s.next(vals[0]);
    assert Remaining(s, vals, 1) == r1 && r1.Item?;
    var r2 := r1.next(vals[1]);
    assert Remaining(s, vals, 2) == r2 && r2.Item?;
    var r3 := r2.next(vals[2]);
  }

  lemma OrderOneLayout(k: Syntax, v: Order, a: int, b: int)
    requires v.orderType == 1 && v.numInCycle == 2
    ensures v.Values([a, b]) == [v.log2MaxFrameNum, 1, v.deltaAlwaysZero, v.nonRefPic, v.topToBottom, 2, a, b]
    ensures Part(OrderSyntax(k), ORDER_ONE, v.Values([a, b]), k)
  {
    var s, vals := OrderSyntax(k), [v.log2MaxFrameNum, 1, v.deltaAlwaysZero, v.nonRefPic, v.topToBottom, 2, a, b];
    var r1 := s.next(vals[0]);
    assert Remaining(s, vals, 1) == r1 && r1.Item?;
    var r2 := r1.next(vals[1]);
    assert Remaining(s, vals, 2) == r2 && r2.Item?;
    var r3 := r2.next(vals[2]);
    assert Remaining(s, vals, 3) == r3 && r3.Item?;
    var r4 := r3.next(vals[3]);
    assert Remaining(s, vals, 4) == r4 && r4.Item?;
    var r5 := r4.next(vals[4]);
    assert Remaining(s, vals, 5) == r5 && r5.Item?;
    var r6 := r5.next(vals[5]);
    assert Remaining(s, vals, 6) == r6 && r6.Item?;
    var r7 := r6.next(vals[6]);
    assert Remaining(s, vals, 7) == r7 && r7.Item?;
    var r8 := r7.next(vals[7]);
  }

  lemma PictureLayout(k: Syntax, v: Picture)
    requires v.mbsOnly == 0
    ensures v.Values() == [v.numRefFrames, v.gapsAllowed, v.width, v.height, 0, v.mbAdaptive]
    ensures Part(SizeSyntax(k), PICTURE, v.Values(), k)
  {
    var s, vals := SizeSyntax(k), [v.numRefFrames, v.gapsAllowed, v.width, v.height, 0, v.mbAdaptive];
    var r1 := s.next(vals[0]);
    assert Remaining(s, vals, 1) == r1 && r1.Item?;
    var r2 := r1.next(vals[1]);
    assert Remaining(s, vals, 2) == r2 && r2.Item?;
    var r3 := r2.next(vals[2]);
    assert Remaining(s, vals, 3) == r3 && r3.Item?;
    var r4 := r3.next(vals[3]);
    assert Remaining(s, vals, 4) == r4 && r4.Item?;
    var r5 := r4.next(vals[4]);
    assert Remaining(s, vals, 5) == r5 && r5.Item?;
    var r6 := r5.next(vals[5]);
  }

  lemma CroppingLayout(k: Syntax, v: Cropping)
    requires v.flag == 1
    ensures v.Values() == [v.direct, 1, v.left, v.right, v.top, v.bottom]
    ensures Part(CroppingSyntax(k), CROPPING, v.Values(), k)
  {
    var s, vals := CroppingSyntax(k), [v.direct, 1, v.left, v.right, v.top, v.bottom];
    var r1 := s.next(vals[0]);
    assert Remaining(s, vals, 1) == r1 && r1.Item?;
    var r2 := r1.next(vals[1]);
    assert Remaining(s, vals, 2) == r2 && r2.Item?;
    var r3 := r2.next(vals[2]);
    assert Remaining(s, vals, 3) == r3 && r3.Item?;
    var r4 := r3.next(vals[3]);
    assert Remaining(s, vals, 4) == r4 && r4.Item?;
    var r5 := r4.next(vals[4]);
    assert Remaining(s, vals, 5) == r5 && r5.Item?;
    var r6 := r5.next(vals[5]);
  }

  // Without any list, a scaling matrix is one flag for each of the 8 or 12 lists.
  lemma {:induction false} NoListsLayout(i: nat, maxi: nat, k: Syntax)
    requires i <= maxi
    ensures Part(ListsSyntax(i, maxi, k), seq(maxi - i, _ => KindU(1)), seq(maxi - i, _ => 0), k)
    decreases maxi - i
  {
    if i < maxi {
      var rest := ListsSyntax(i + 1, maxi, k);
      NoListsLayout(i + 1, maxi, k);
      assert Remaining(ListsSyntax(i, maxi, k), [0], 1) == rest;
      assert Part(ListsSyntax(i, maxi, k), [KindU(1)], [0], rest);
      hide Part, ListsSyntax;
      Join(ListsSyntax(i, maxi, k), [KindU(1)], [0], rest, seq(maxi - i - 1, _ => KindU(1)), seq(maxi - i - 1, _ => 0),
          k);
      assert [KindU(1)] + seq(maxi - i - 1, _ => KindU(1)) == seq(maxi - i, _ => KindU(1));
      assert [0] + seq(maxi - i - 1, _ => 0) == seq(maxi - i, _ => 0);
    }
  }

  lemma MatrixLayout(chroma: int, k: Syntax)
    ensures var n := if chroma == 3 then 12 else 8;
            Part(MatrixSyntax(chroma, k), [KindU(1)] + seq(n, _ => KindU(1)), [1] + seq(n, _ => 0), k)
  {
    var n := if chroma == 3 then 12 else 8;
    NoListsLayout(0, n, k);
    assert n == NumberOfLists(chroma);
    assert Remaining(MatrixSyntax(chroma, k), [1], 1) == ListsSyntax(0, n, k);
    assert Part(MatrixSyntax(chroma, k), [KindU(1)], [1], ListsSyntax(0, n, k));
    hide Part, ListsSyntax, MatrixSyntax;
    Join(MatrixSyntax(chroma, k), [KindU(1)], [1], ListsSyntax(0, n, k), seq(n, _ => KindU(1)), seq(n, _ => 0), k);
  }

  // A list that is present has 16 or 64 differences, unless a scale of zero ends it.
  lemma ListLayout(i: nat, maxi: nat, k: Syntax)
    requires i < maxi
    ensures var n := if i < 6 then 16 else 64;
            Part(ListsSyntax(i, maxi, k), [KindU(1)] + seq(n, _ => KindSe), [1] + seq(n, _ => 0),
                ListsSyntax(i + 1, maxi, k))
    ensures Part(ListsSyntax(i, maxi, k), [KindU(1), KindSe], [1, -8], ListsSyntax(i + 1, maxi, k))
  {
    var n := if i < 6 then 16 else 64;
    var s, rest := ListsSyntax(i, maxi, k), ListsSyntax(i + 1, maxi, k);
    var list := ListSyntax(n, 8, 8, rest);
    SameScale(n, rest);
    OneListFlag(i, maxi, k);
    EndedByZero(n, rest);
    hide Part, ListsSyntax, ListSyntax;
    Join(s, [KindU(1)], [1], list, seq(n, _ => KindSe), seq(n, _ => 0), rest);
    Join(s, [KindU(1)], [1], list, [KindSe], [-8], rest);
    assert [KindU(1)] + [KindSe] == [KindU(1), KindSe] && [1] + [-8] == [1, -8];
  }

  lemma OneListFlag(i: nat, maxi: nat, k: Syntax)
    requires i < maxi
    ensures Part(ListsSyntax(i, maxi, k), [KindU(1)], [1],
                 ListSyntax(if i < 6 then 16 else 64, 8, 8, ListsSyntax(i + 1, maxi, k)))
  {
    var s := ListsSyntax(i, maxi, k);
    assert ListSize(i) == if i < 6 then 16 else 64;
    assert Remaining(s, [1], 1) == s.next(1);
  }

  lemma {:induction false} SameScale(n: nat, k: Syntax)
    ensures Part(ListSyntax(n, 8, 8, k), seq(n, _ => KindSe), seq(n, _ => 0), k)
  {
    if n > 0 {
      var s, rest := ListSyntax(n, 8, 8, k), ListSyntax(n - 1, 8, 8, k);
      SameScale(n - 1, k);
      NextScaleIsModulo(8, 0);
      assert NextScale(8, 0) == 8;
      assert Remaining(s, [0], 1) == s.next(0) == rest;
      assert Part(s, [KindSe], [0], rest);
      hide Part, ListSyntax;
      Join(s, [KindSe], [0], rest, seq(n - 1, _ => KindSe), seq(n - 1, _ => 0), k);
      assert [KindSe] + seq(n - 1, _ => KindSe) == seq(n, _ => KindSe) && [0] + seq(n - 1, _ => 0) == seq(n, _ => 0);
    }
  }

  lemma EndedByZero(n: nat, k: Syntax)
    requires n > 0
    ensures Part(ListSyntax(n, 8, 8, k), [KindSe], [-8], k)
  {
    NextScaleIsModulo(8, -8);
    NothingAfterZero(n - 1, 8, k);
    assert Remaining(ListSyntax(n, 8, 8, k), [-8], 1) == ListSyntax(n - 1, 8, 0, k);
  }

  lemma {:induction false} NothingAfterZero(n: nat, last: int, k: Syntax)
    ensures ListSyntax(n, last, 0, k) == k
  {
    if n > 0 {
      NothingAfterZero(n - 1, last, k);
    }
  }

  // The remainder of C++ is that of the standard for the differences that the standard allows.
  lemma NextScaleIsModulo(last: int, delta: int)
    ensures last + delta >= -256 ==> NextScale(last, delta) == (last + delta) % 256
  {
  }

  lemma FlagLayout(k: Syntax)
    ensures Part(VuiFlagSyntax(k), [KindU(1)], [0], k) && Part(VuiFlagSyntax(k), [KindU(1)], [1], VuiSyntax(k))
  {
    assert Remaining(VuiFlagSyntax(k), [0], 1) == k && Remaining(VuiFlagSyntax(k), [1], 1) == VuiSyntax(k);
  }

  // ----- Whole structures -----

  // All parts of the video usability information, in order, without reference decoders.
  lemma VuiLayout(k: Syntax, a: Aspect, o: Overscan, g: Signal, c: Chroma, t: Timing, r: Restriction)
    requires a.infoPresent == o.infoPresent == g.typePresent == g.colourPresent == 1 && a.idc == 255
    requires c.infoPresent == t.infoPresent == r.present == 1
    ensures Part(VuiSyntax(k), ASPECT + OVERSCAN + SIGNAL + CHROMA + TIMING + NO_HRD + RESTRICTION,
                 a.Values() + o.Values() + g.Values() + c.Values() + t.Values() + [0, 0] + r.Values(), k)
  {
    hide Part, AspectSyntax, OverscanSyntax, SignalSyntax, ChromaSyntax, TimingSyntax, HrdsSyntax, RestrictionSyntax,
      Aspect.Values, Overscan.Values, Signal.Values, Chroma.Values, Timing.Values, Restriction.Values;
    var t6 := RestrictionSyntax(k);
    var t5 := HrdsSyntax(t6);
    var t4 := TimingSyntax(t5);
    var t3 := ChromaSyntax(t4);
    var t2 := SignalSyntax(t3);
    var t1 := OverscanSyntax(t2);
    assert VuiSyntax(k) == AspectSyntax(t1);
    AspectLayout(t1, a);
    OverscanLayout(t2, o);
    SignalLayout(t3, g);
    ChromaLayout(t4, c);
    TimingLayout(t5, t);
    NoHrdLayout(t6);
    RestrictionLayout(k, r);
    var kinds, vals := ASPECT, a.Values();
    Join(VuiSyntax(k), kinds, vals, t1, OVERSCAN, o.Values(), t2);
    kinds, vals := kinds + OVERSCAN, vals + o.Values();
    Join(VuiSyntax(k), kinds, vals, t2, SIGNAL, g.Values(), t3);
    kinds, vals := kinds + SIGNAL, vals + g.Values();
    Join(VuiSyntax(k), kinds, vals, t3, CHROMA, c.Values(), t4);
    kinds, vals := kinds + CHROMA, vals + c.Values();
    Join(VuiSyntax(k), kinds, vals, t4, TIMING, t.Values(), t5);
    kinds, vals := kinds + TIMING, vals + t.Values();
    Join(VuiSyntax(k), kinds, vals, t5, NO_HRD, [0, 0], t6);
    kinds, vals := kinds + NO_HRD, vals + [0, 0];
    Join(VuiSyntax(k), kinds, vals, t6, RESTRICTION, r.Values(), k);
  }

  // A sequence parameter set of a profile without extension, with a picture order of type 0,
  // pictures that may be fields and a cropping rectangle.
  lemma BaselineLayout(h: Header, o: Order, q: Picture, c: Cropping)
    requires h.profile !in {44, 83, 86, 100, 110, 122, 244} && o.orderType == 0 && q.mbsOnly == 0 && c.flag == 1
    ensures Part(SpsSyntax(), HEADER + ORDER_ZERO + PICTURE + CROPPING + [KindU(1)],
                 h.Values() + o.Values([]) + q.Values() + c.Values() + [0], End)
  {
    hide Part, HeaderSyntax, ExtensionSyntax, OrderSyntax, SizeSyntax, CroppingSyntax, VuiFlagSyntax,
      Header.Values, Extension.Values, Order.Values, Picture.Values, Cropping.Values;
    var p3 := VuiFlagSyntax(End);
    var p2 := CroppingSyntax(p3);
    var p1 := SizeSyntax(p2);
    var p0 := OrderSyntax(p1);
    assert SpsSyntax() == HeaderSyntax(p0);
    HeaderLayout(p0, h);
    NoExtensionLayout(p0, h.profile);
    OrderZeroLayout(p1, o);
    PictureLayout(p2, q);
    CroppingLayout(p3, c);
    FlagLayout(End);
    var kinds, vals := HEADER, h.Values();
    Join(SpsSyntax(), kinds, vals, p0, ORDER_ZERO, o.Values([]), p1);
    kinds, vals := kinds + ORDER_ZERO, vals + o.Values([]);
    Join(SpsSyntax(), kinds, vals, p1, PICTURE, q.Values(), p2);
    kinds, vals := kinds + PICTURE, vals + q.Values();
    Join(SpsSyntax(), kinds, vals, p2, CROPPING, c.Values(), p3);
    kinds, vals := kinds + CROPPING, vals + c.Values();
    Join(SpsSyntax(), kinds, vals, p3, [KindU(1)], [0], End);
  }

  // A sequence parameter set of a profile with extension, with two offsets of a picture order
  // of type 1.
  lemma HighLayout(h: Header, e: Extension, o: Order, a: int, b: int, q: Picture, c: Cropping)
    requires h.profile in {44, 83, 86, 100, 110, 122, 244} && e.chromaFormat != 3 && e.matrixPresent == 0
    requires o.orderType == 1 && o.numInCycle == 2 && q.mbsOnly == 0 && c.flag == 1
    ensures Part(SpsSyntax(), HEADER + EXTENSION + ORDER_ONE + PICTURE + CROPPING + [KindU(1)],
                 h.Values() + e.Values([]) + o.Values([a, b]) + q.Values() + c.Values() + [0], End)
  {
    hide Part, HeaderSyntax, ExtensionSyntax, OrderSyntax, SizeSyntax, CroppingSyntax, VuiFlagSyntax,
      Header.Values, Extension.Values, Order.Values, Picture.Values, Cropping.Values;
    var p3 := VuiFlagSyntax(End);
    var p2 := CroppingSyntax(p3);
    var p1 := SizeSyntax(p2);
    var p0 := OrderSyntax(p1);
    assert SpsSyntax() == HeaderSyntax(p0);
    var x0 := ExtensionSyntax(h.profile, p0);
    HeaderLayout(p0, h);
    ExtensionLayout(p0, e, h.profile);
    OrderOneLayout(p1, o, a, b);
    PictureLayout(p2, q);
    CroppingLayout(p3, c);
    FlagLayout(End);
    var kinds, vals := HEADER, h.Values();
    Join(SpsSyntax(), kinds, vals, x0, EXTENSION, e.Values([]), p0);
    kinds, vals := kinds + EXTENSION, vals + e.Values([]);
    Join(SpsSyntax(), kinds, vals, p0, ORDER_ONE, o.Values([a, b]), p1);
    kinds, vals := kinds + ORDER_ONE, vals + o.Values([a, b]);
    Join(SpsSyntax(), kinds, vals, p1, PICTURE, q.Values(), p2);
    kinds, vals := kinds + PICTURE, vals + q.Values();
    Join(SpsSyntax(), kinds, vals, p2, CROPPING, c.Values(), p3);
    kinds, vals := kinds + CROPPING, vals + c.Values();
    Join(SpsSyntax(), kinds, vals, p3, [KindU(1)], [0], End);
  }
}
