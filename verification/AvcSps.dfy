/**
  The sequence parameter sets (ITU-T H.264, sections 7.3.1 and 7.3.2.1.1) and their parser
  (tsAbstractAVCAccessUnit.cpp, tsAVCSequenceParameterSet.cpp).
 */
module AvcSps {
  import opened Octets
  import opened AvcBits
  import opened AvcCodes
  import opened AvcElements
  import opened AvcParser
  import opened AvcSyntax
  import opened AvcVui

  const AVC_AUT_SEQPARAMS := 7

  // ----- Syntax -----

  // The header, and what follows for its profile.
  function HeaderSyntax(k: Syntax): Syntax {
    Item(KindU(8), profile => FlagsSyntax(LevelSyntax(ExtensionSyntax(profile, k))))
  }

  function FlagsSyntax(k: Syntax): Syntax {
    Item(KindU(1), a => Item(KindU(1), b => Item(KindU(1), c => Item(KindU(1), d => k))))
  }

  function LevelSyntax(k: Syntax): Syntax {
    Item(KindU(4), a => Item(KindU(8), b => Item(KindUe, c => k)))
  }

  predicate HasExtension(profile: int) {
    || profile == 100 || profile == 110 || profile == 122 || profile == 244
    || profile == 44 || profile == 83 || profile == 86
  }

  function ExtensionSyntax(profile: int, k: Syntax): Syntax {
    if HasExtension(profile) then FormatSyntax(k) else k
  }

  // The chroma format, and what follows for it.
  function FormatSyntax(k: Syntax): Syntax {
    Item(KindUe8, chroma =>
      if chroma == 3 then Item(KindU(1), a => DepthSyntax(MatrixSyntax(chroma, k)))
      else DepthSyntax(MatrixSyntax(chroma, k)))
  }

  function DepthSyntax(k: Syntax): Syntax {
    Item(KindUe, a => Item(KindUe, b => Item(KindU(1), c => k)))
  }

  function MatrixSyntax(chroma: int, k: Syntax): Syntax {
    Item(KindU(1), present => if present != 0 then ListsSyntax(0, NumberOfLists(chroma), k) else k)
  }

  function NumberOfLists(chroma: int): nat {
    if chroma != 3 then 8 else 12
  }

  function ListSize(i: nat): nat {
    if i < 6 then 16 else 64
  }

  // The scaling lists from number i on.
  function ListsSyntax(i: nat, maxi: nat, k: Syntax): Syntax
    decreases maxi - i
  {
    if i >= maxi then k
    else Item(KindU(1), flag =>
      if flag != 0 then ListSyntax(ListSize(i), 8, 8, ListsSyntax(i + 1, maxi, k)) else ListsSyntax(i + 1, maxi, k))
  }

  // The next scale, with the remainder of C++, which has the sign of the dividend.
  function NextScale(last: int, delta: int): int {
    var x := last + delta + 256;
    x - 256 * TruncatedDivision(x, 256)
  }

  // The remaining n entries of a scaling list. Nothing is read after a scale of zero.
  function ListSyntax(n: int, last: int, scale: int, k: Syntax): Syntax
    decreases n
  {
    if n <= 0 then k
    else if scale == 0 then ListSyntax(n - 1, last, 0, k)
    else Item(KindSe, delta =>
      var scale' := NextScale(last, delta);
      ListSyntax(n - 1, if scale' == 0 then last else scale', scale', k))
  }

  function OrderSyntax(k: Syntax): Syntax {
    Item(KindUe, a => Item(KindUe, orderType => CountSyntax(orderType, k)))
  }

  // What follows for a type of picture order.
  function CountSyntax(orderType: int, k: Syntax): Syntax {
    if orderType == 0 then Item(KindUe, b => k) else if orderType == 1 then CycleSyntax(k) else k
  }

  function CycleSyntax(k: Syntax): Syntax {
    Item(KindU(1), a => Item(KindSe, b => Item(KindSe, c => Item(KindUe, n => OffsetsSyntax(n, k)))))
  }

  function OffsetsSyntax(n: int, k: Syntax): Syntax
    decreases n
  {
    if n <= 0 then k else Item(KindSe, v => OffsetsSyntax(n - 1, k))
  }

  function SizeSyntax(k: Syntax): Syntax {
    Item(KindUe, a => Item(KindU(1), b => Item(KindUe, c => Item(KindUe, d => MbsSyntax(k)))))
  }

  function MbsSyntax(k: Syntax): Syntax {
    Item(KindU(1), mbsOnly => if mbsOnly == 0 then Item(KindU(1), a => k) else k)
  }

  function CroppingSyntax(k: Syntax): Syntax {
    Item(KindU(1), a => Item(KindU(1), flag =>
      if flag == 1 then Item(KindUe, b => Item(KindUe, c => Item(KindUe, d => Item(KindUe, e => k)))) else k))
  }

  function VuiFlagSyntax(k: Syntax): Syntax {
    Item(KindU(1), flag => if flag == 1 then VuiSyntax(k) else k)
  }

  function PartsSyntax(k: Syntax): Syntax {
    OrderSyntax(SizeSyntax(CroppingSyntax(VuiFlagSyntax(k))))
  }

  function SpsSyntax(): Syntax {
    HeaderSyntax(PartsSyntax(End))
  }

  // ----- The fields -----

  // The values that are present, in the order of the syntax. The other ones are kept from
  // the object before.

  datatype Header = Header(profile: int, set0: int, set1: int, set2: int, set3: int, reserved: int, level: int, id: int)
  {
    function Values(): seq<int> {
      [profile, set0, set1, set2, set3, reserved, level, id]
    }
  }

  datatype Extension = Extension(chromaFormat: int, separatePlane: int, lumaDepth: int, chromaDepth: int, bypass: int,
                                 matrixPresent: int)
  {
    function Values(lists: seq<int>): seq<int> {
      FormatValues() + DepthValues() + MatrixValues(lists)
    }

    function FormatValues(): seq<int> {
      if chromaFormat == 3 then [chromaFormat, separatePlane] else [chromaFormat]
    }

    function DepthValues(): seq<int> {
      [lumaDepth, chromaDepth, bypass]
    }

    function MatrixValues(lists: seq<int>): seq<int> {
      [matrixPresent] + if matrixPresent != 0 then lists else []
    }

    predicate Keeps(before: Extension) {
      chromaFormat != 3 ==> separatePlane == before.separatePlane
    }
  }

  datatype Order = Order(log2MaxFrameNum: int, orderType: int, log2MaxLsb: int,
                         deltaAlwaysZero: int, nonRefPic: int, topToBottom: int, numInCycle: int)
  {
    function Values(offsets: seq<int>): seq<int> {
      [log2MaxFrameNum, orderType] + CountValues(offsets)
    }

    function CountValues(offsets: seq<int>): seq<int> {
      if orderType == 0 then [log2MaxLsb]
      else if orderType == 1 then CycleValues() + offsets
      else []
    }

    function CycleValues(): seq<int> {
      [deltaAlwaysZero, nonRefPic, topToBottom, numInCycle]
    }

    predicate Keeps(before: Order) {
      && (orderType != 0 ==> log2MaxLsb == before.log2MaxLsb)
      && (orderType != 1 ==>
            && deltaAlwaysZero == before.deltaAlwaysZero && nonRefPic == before.nonRefPic
            && topToBottom == before.topToBottom && numInCycle == before.numInCycle)
    }
  }

  datatype Picture = Picture(numRefFrames: int, gapsAllowed: int, width: int, height: int, mbsOnly: int,
          mbAdaptive: int)
  {
    function Values(): seq<int> {
      SizeValues() + MbsValues()
    }

    function SizeValues(): seq<int> {
      [numRefFrames, gapsAllowed, width, height]
    }

    function MbsValues(): seq<int> {
      if mbsOnly == 0 then [mbsOnly, mbAdaptive] else [mbsOnly]
    }

    predicate Keeps(before: Picture) {
      mbsOnly != 0 ==> mbAdaptive == before.mbAdaptive
    }
  }

  datatype Cropping = Cropping(direct: int, flag: int, left: int, right: int, top: int, bottom: int)
  {
    function Values(): seq<int> {
      [direct, flag] + if flag == 1 then [left, right, top, bottom] else []
    }

    predicate Keeps(before: Cropping) {
      flag != 1 ==> left == before.left && right == before.right && top == before.top && bottom == before.bottom
    }
  }

  const NO_HEADER := Header(0, 0, 0, 0, 0, 0, 0, 0)
  const NO_EXTENSION := Extension(0, 0, 0, 0, 0, 0)
  const NO_ORDER := Order(0, 0, 0, 0, 0, 0, 0)
  const NO_PICTURE := Picture(0, 0, 0, 0, 0, 0)
  const NO_CROPPING := Cropping(0, 0, 0, 0, 0, 0)

  // ----- The parser -----

  class SequenceParameterSet {
    var valid: bool
    var forbiddenZeroBit: int
    var nalRefIdc: int
    var nalUnitType: int
    var header: Header
    var extension: Extension
    ghost var scalingLists: seq<int>  // the flags and differences of the scaling lists, which are not stored
    var order: Order
    var offsetForRefFrame: seq<int>
    var picture: Picture
    var cropping: Cropping
    var vuiPresent: int
    const vui: VuiParameters
    var trailingBitsValid: bool
    var trailingBitsCount: int

    predicate Cleared()
      reads this, vui, vui.nalHrd, vui.vclHrd
    {
      FieldsCleared() && vui.Cleared()
    }

    predicate FieldsCleared()
      reads this
    {
      && !valid && forbiddenZeroBit == nalRefIdc == nalUnitType == 0
      && header == NO_HEADER && extension == NO_EXTENSION && order == NO_ORDER && picture == NO_PICTURE
        && cropping == NO_CROPPING
      && offsetForRefFrame == [] && vuiPresent == 0 && !trailingBitsValid && trailingBitsCount == 0
    }

    // Parse from a cleared object.
    constructor (area: seq<Byte>)
      ensures vui.nalHrd != vui.vclHrd && fresh(vui) && fresh(vui.nalHrd) && fresh(vui.vclHrd)
      ensures area == [] ==> Cleared()
      ensures area != [] ==> NalParsed(area[0]) && Parsed(SpsReading(area), 0)
      ensures area != [] && SpsReading(area).Read? ==> TrailingRead(area, SpsReading(area).rest)
      ensures valid && order.orderType == 1 ==> |offsetForRefFrame| == order.numInCycle
    {
      valid, forbiddenZeroBit, nalRefIdc, nalUnitType := false, 0, 0, 0;
      header, extension, order, picture, cropping := NO_HEADER, NO_EXTENSION, NO_ORDER, NO_PICTURE, NO_CROPPING;
      scalingLists, offsetForRefFrame, vuiPresent, trailingBitsValid, trailingBitsCount := [], [], 0, false, 0;
      vui := new VuiParameters();
      new;
      var _ := Parse(area);
    }

    method Clear()
      requires vui.nalHrd != vui.vclHrd
      modifies this, vui, vui.nalHrd, vui.vclHrd
      ensures Cleared()
    {
      hide VuiParameters.Cleared, SequenceParameterSet.FieldsCleared;
      ClearFields();
      vui.Clear();
    }

    method ClearFields()
      modifies this
      ensures FieldsCleared()
    {
      ClearUnit();
      header, extension, order, picture, cropping := NO_HEADER, NO_EXTENSION, NO_ORDER, NO_PICTURE, NO_CROPPING;
      offsetForRefFrame, vuiPresent, trailingBitsValid, trailingBitsCount := [], 0, false, 0;
    }

    // The fields of all access units.
    method ClearUnit()
      modifies this`valid, this`forbiddenZeroBit, this`nalRefIdc, this`nalUnitType
      ensures !valid && forbiddenZeroBit == nalRefIdc == nalUnitType == 0
    {
      valid, forbiddenZeroBit, nalRefIdc, nalUnitType := false, 0, 0, 0;
    }

    method ParseHeader(p: Parser, ghost t: Trace, ghost k: Syntax) returns (status: Status, ghost t': Trace)
      requires p.Valid() && At(p, Done, t) && t.rest == HeaderSyntax(k)
      modifies this`header, p`byte, p`bit
      ensures p.Valid() && At(p, status, t') && t'.whole == t.whole && |p.Rest()| <= old(|p.Rest()|)
      ensures status == Done ==> t' == Trace(t.whole, t.vals + header.Values(), ExtensionSyntax(header.profile, k))
    {
      hide At, BitsFrom, DecodeSyntax, FlagsSyntax, LevelSyntax, ExtensionSyntax;
      var v;
      status, v, t' := ReadField(p, KindU(8), t);
      header := header.(profile := v);
      if status != Done {
        return;
      }
      status, t' := ParseFlags(p, t', LevelSyntax(ExtensionSyntax(v, k)));
      if status != Done {
        return;
      }
      status, t' := ParseLevel(p, t', ExtensionSyntax(v, k));
    }

    method ParseFlags(p: Parser, ghost t: Trace, ghost k: Syntax) returns (status: Status, ghost t': Trace)
      requires p.Valid() && At(p, Done, t) && t.rest == FlagsSyntax(k)
      modifies this`header, p`byte, p`bit
      ensures p.Valid() && At(p, status, t') && t'.whole == t.whole && |p.Rest()| <= old(|p.Rest()|)
      ensures status == Done ==> t' == Trace(t.whole, t.vals + [header.set0, header.set1, header.set2, header.set3], k)
      ensures header == old(header).(set0 := header.set0, set1 := header.set1, set2 := header.set2, set3 := header.set3)
    {
      hide At, BitsFrom, DecodeSyntax;
      var v;
      status, v, t' := ReadField(p, KindU(1), t);
      header := header.(set0 := v);
      if status != Done {
        return;
      }
      status, v, t' := ReadField(p, KindU(1), t');
      header := header.(set1 := v);
      if status != Done {
        return;
      }
      status, v, t' := ReadField(p, KindU(1), t');
      header := header.(set2 := v);
      if status != Done {
        return;
      }
      status, v, t' := ReadField(p, KindU(1), t');
      header := header.(set3 := v);
    }

    method ParseLevel(p: Parser, ghost t: Trace, ghost k: Syntax) returns (status: Status, ghost t': Trace)
      requires p.Valid() && At(p, Done, t) && t.rest == LevelSyntax(k)
      modifies this`header, p`byte, p`bit
      ensures p.Valid() && At(p, status, t') && t'.whole == t.whole && |p.Rest()| <= old(|p.Rest()|)
      ensures status == Done ==> t' == Trace(t.whole, t.vals + [header.reserved, header.level, header.id], k)
      ensures header == old(header).(reserved := header.reserved, level := header.level, id := header.id)
    {
      hide At, BitsFrom, DecodeSyntax;
      var v;
      status, v, t' := ReadField(p, KindU(4), t);
      header := header.(reserved := v);
      if status != Done {
        return;
      }
      status, v, t' := ReadField(p, KindU(8), t');
      header := header.(level := v);
      if status != Done {
        return;
      }
      status, v, t' := ReadField(p, KindUe, t');
      header := header.(id := v);
    }

    // The values of the extension, if there is one.
    ghost function ExtensionValues(): seq<int>
      reads this`header, this`extension, this`scalingLists
    {
      if HasExtension(header.profile) then extension.Values(scalingLists) else []
    }

    method ParseExtension(p: Parser, ghost t: Trace, ghost k: Syntax) returns (status: Status, ghost t': Trace)
      requires p.Valid() && At(p, Done, t) && t.rest == ExtensionSyntax(header.profile, k)
      modifies this`extension, this`scalingLists, p`byte, p`bit
      ensures p.Valid() && At(p, status, t') && t'.whole == t.whole && |p.Rest()| <= old(|p.Rest()|)
      ensures status == Done ==> t' == Trace(t.whole, t.vals + ExtensionValues(), k)
      ensures status == Done ==>
          if HasExtension(header.profile) then extension.Keeps(old(extension)) else extension == old(extension)
    {
      hide At, BitsFrom, DecodeSyntax, FormatSyntax, DepthSyntax, MatrixSyntax, Extension.FormatValues,
        Extension.DepthValues, Extension.MatrixValues;
      if !HasExtension(header.profile) {
        assert t.vals + [] == t.vals;
        return Done, t;
      }
      status, t' := ParseFormat(p, t, k);
      if status != Done {
        return;
      }
      ghost var chroma := extension.FormatValues();
      status, t' := ParseDepths(p, t', MatrixSyntax(extension.chromaFormat, k));
      if status != Done {
        return;
      }
      ghost var depths := extension.DepthValues();
      status, t' := ParseMatrix(p, t', k);
      ThreeParts(t.vals, chroma, depths, extension.MatrixValues(scalingLists));
    }

    method ParseFormat(p: Parser, ghost t: Trace, ghost k: Syntax) returns (status: Status, ghost t': Trace)
      requires p.Valid() && At(p, Done, t) && t.rest == FormatSyntax(k)
      modifies this`extension, p`byte, p`bit
      ensures p.Valid() && At(p, status, t') && t'.whole == t.whole && |p.Rest()| <= old(|p.Rest()|)
      ensures status == Done ==>
          t' == Trace(t.whole, t.vals + extension.FormatValues(), DepthSyntax(MatrixSyntax(extension.chromaFormat, k)))
      ensures status == Done ==> extension.Keeps(old(extension))
    {
      hide At, BitsFrom, DecodeSyntax, DepthSyntax, MatrixSyntax;
      var v;
      status, v, t' := ReadField(p, KindUe8, t);
      extension := extension.(chromaFormat := v);
      if status != Done || extension.chromaFormat != 3 {
        return;
      }
      status, v, t' := ReadField(p, KindU(1), t');
      extension := extension.(separatePlane := v);
    }

    method ParseDepths(p: Parser, ghost t: Trace, ghost k: Syntax) returns (status: Status, ghost t': Trace)
      requires p.Valid() && At(p, Done, t) && t.rest == DepthSyntax(k)
      modifies this`extension, p`byte, p`bit
      ensures p.Valid() && At(p, status, t') && t'.whole == t.whole && |p.Rest()| <= old(|p.Rest()|)
      ensures extension == old(extension).(lumaDepth := extension.lumaDepth, chromaDepth := extension.chromaDepth,
          bypass := extension.bypass)
      ensures extension.FormatValues() == old(extension).FormatValues()
      ensures status == Done ==> t' == Trace(t.whole, t.vals + extension.DepthValues(), k)
    {
      hide At, BitsFrom, DecodeSyntax;
      var v;
      status, v, t' := ReadField(p, KindUe, t);
      extension := extension.(lumaDepth := v);
      if status != Done {
        return;
      }
      status, v, t' := ReadField(p, KindUe, t');
      extension := extension.(chromaDepth := v);
      if status != Done {
        return;
      }
      status, v, t' := ReadField(p, KindU(1), t');
      extension := extension.(bypass := v);
    }

    method ParseMatrix(p: Parser, ghost t: Trace, ghost k: Syntax) returns (status: Status, ghost t': Trace)
      requires p.Valid() && At(p, Done, t) && t.rest == MatrixSyntax(extension.chromaFormat, k)
      modifies this`extension, this`scalingLists, p`byte, p`bit
      ensures p.Valid() && At(p, status, t') && t'.whole == t.whole && |p.Rest()| <= old(|p.Rest()|)
      ensures extension == old(extension).(matrixPresent := extension.matrixPresent)
      ensures extension.FormatValues() == old(extension).FormatValues()
          && extension.DepthValues() == old(extension).DepthValues()
      ensures status == Done ==> t' == Trace(t.whole, t.vals + extension.MatrixValues(scalingLists), k)
    {
      hide At, BitsFrom, DecodeSyntax, ListsSyntax;
      var v;
      status, v, t' := ReadField(p, KindU(1), t);
      extension := extension.(matrixPresent := v);
      if status == Done && extension.matrixPresent != 0 {
        status, t' := ParseLists(p, t', k);
        if status == Done {
          TwoParts(t.vals, [extension.matrixPresent], scalingLists);
        }
      }
    }

    // The loop over the scaling lists.
    method ParseLists(p: Parser, ghost t: Trace, ghost k: Syntax) returns (status: Status, ghost t': Trace)
      requires p.Valid() && At(p, Done, t) && t.rest == ListsSyntax(0, NumberOfLists(extension.chromaFormat), k)
      modifies this`scalingLists, p`byte, p`bit
      ensures p.Valid() && At(p, status, t') && t'.whole == t.whole && |p.Rest()| <= old(|p.Rest()|)
      ensures status == Done ==> t' == Trace(t.whole, t.vals + scalingLists, k)
    {
      hide At, BitsFrom, DecodeSyntax, ListSyntax;
      scalingLists := [];
      assert t.vals + [] == t.vals;
      status, t' := Done, t;
      var maxi := if extension.chromaFormat != 3 then 8 else 12;
      var i := 0;
      while status == Done && i < maxi
        invariant p.Valid() && At(p, status, t') && t'.whole == t.whole && |p.Rest()| <= old(|p.Rest()|) && i <= maxi
        invariant status == Done ==> t' == Trace(t.whole, t.vals + scalingLists, ListsSyntax(i, maxi, k))
      {
        var flag;
        ghost var before := scalingLists;
        status, flag, t' := ReadField(p, KindU(1), t');
        scalingLists := before + [flag];
        assert t.vals + before + [flag] == t.vals + scalingLists;
        if status == Done && flag != 0 {
          var size := if i < 6 then 16 else 64;
          assert size == ListSize(i);
          assert t'.rest == ListSyntax(size, 8, 8, ListsSyntax(i + 1, maxi, k));
          status, t' := ParseList(p, size, t.vals, t', ListsSyntax(i + 1, maxi, k));
        }
        i := i + 1;
      }
    }

    // The loop over one scaling list.
    method ParseList(p: Parser, size: nat, ghost base: seq<int>, ghost t: Trace, ghost k: Syntax)
      returns (status: Status, ghost t': Trace)
      requires p.Valid() && At(p, Done, t) && t.vals == base + scalingLists && t.rest == ListSyntax(size, 8, 8, k)
      modifies this`scalingLists, p`byte, p`bit
      ensures p.Valid() && At(p, status, t') && t'.whole == t.whole && |p.Rest()| <= old(|p.Rest()|)
      ensures status == Done ==> t' == Trace(t.whole, base + scalingLists, k)
    {
      hide At, BitsFrom, DecodeSyntax;
      status, t' := Done, t;
      var lastScale, nextScale := 8, 8;
      var j := 0;
      while status == Done && j < size
        invariant p.Valid() && At(p, status, t') && t'.whole == t.whole && |p.Rest()| <= old(|p.Rest()|) && j <= size
        invariant status == Done ==>
          t' == Trace(t.whole, base + scalingLists, ListSyntax(size - j, lastScale, nextScale, k))
      {
        if nextScale != 0 {
          var delta;
          ghost var before := scalingLists;
          status, delta, t' := ReadField(p, KindSe, t');
          scalingLists := before + [delta];
          assert base + before + [delta] == base + scalingLists;
          nextScale := (lastScale + delta + 256) - 256 * TruncatedDivision(lastScale + delta + 256, 256);
        }
        lastScale := if nextScale == 0 then lastScale else nextScale;
        j := j + 1;
      }
    }

    method ParseOrder(p: Parser, ghost t: Trace, ghost k: Syntax) returns (status: Status, ghost t': Trace)
      requires p.Valid() && At(p, Done, t) && t.rest == OrderSyntax(k)
      modifies this`order, this`offsetForRefFrame, p`byte, p`bit
      ensures p.Valid() && At(p, status, t') && t'.whole == t.whole && |p.Rest()| <= old(|p.Rest()|)
      ensures status == Done ==> OffsetsAdded(old(offsetForRefFrame)) && order.Keeps(old(order))
      ensures status == Done ==> t' == Trace(t.whole, t.vals + OrderValues(|old(offsetForRefFrame)|), k)
    {
      hide At, BitsFrom, DecodeSyntax, CountSyntax;
      status, t' := ParseOrderType(p, t, k);
      if status != Done {
        return;
      }
      ghost var o := order;
      status, t' := ParseCount(p, t', k);
      if status == Done {
        TwoParts(t.vals, [o.log2MaxFrameNum, o.orderType], CountValues(|old(offsetForRefFrame)|));
      }
    }

    method ParseOrderType(p: Parser, ghost t: Trace, ghost k: Syntax) returns (status: Status, ghost t': Trace)
      requires p.Valid() && At(p, Done, t) && t.rest == OrderSyntax(k)
      modifies this`order, p`byte, p`bit
      ensures p.Valid() && At(p, status, t') && t'.whole == t.whole && |p.Rest()| <= old(|p.Rest()|)
      ensures status == Done ==>
          t' == Trace(t.whole, t.vals + [order.log2MaxFrameNum, order.orderType], CountSyntax(order.orderType, k))
      ensures order == old(order).(log2MaxFrameNum := order.log2MaxFrameNum, orderType := order.orderType)
    {
      hide At, BitsFrom, DecodeSyntax, CountSyntax;
      var v;
      status, v, t' := ReadField(p, KindUe, t);
      order := order.(log2MaxFrameNum := v);
      if status != Done {
        return;
      }
      status, v, t' := ReadField(p, KindUe, t');
      order := order.(orderType := v);
    }

    // What follows the type of picture order.
    method ParseCount(p: Parser, ghost t: Trace, ghost k: Syntax) returns (status: Status, ghost t': Trace)
      requires p.Valid() && At(p, Done, t) && t.rest == CountSyntax(order.orderType, k)
      modifies this`order, this`offsetForRefFrame, p`byte, p`bit
      ensures p.Valid() && At(p, status, t') && t'.whole == t.whole && |p.Rest()| <= old(|p.Rest()|)
      ensures order.log2MaxFrameNum == old(order.log2MaxFrameNum) && order.orderType == old(order.orderType)
          && order.Keeps(old(order))
      ensures status == Done ==> OffsetsAdded(old(offsetForRefFrame))
      ensures status == Done ==> t' == Trace(t.whole, t.vals + CountValues(|old(offsetForRefFrame)|), k)
    {
      hide At, BitsFrom, DecodeSyntax, CycleSyntax;
      if order.orderType == 0 {
        var v;
        status, v, t' := ReadField(p, KindUe, t);
        order := order.(log2MaxLsb := v);
      } else if order.orderType == 1 {
        status, t' := ParseCycle(p, t, k);
      } else {
        assert t.vals + [] == t.vals;
        return Done, t;
      }
    }

    function CountValues(n: nat): seq<int>
      requires n <= |offsetForRefFrame|
      reads this`order, this`offsetForRefFrame
    {
      order.CountValues(offsetForRefFrame[n..])
    }

    // One more offset for each reference frame of the cycle. The offsets that were there
    // before are still there: nothing clears them.
    predicate OffsetsAdded(before: seq<int>)
      reads this`order, this`offsetForRefFrame
    {
      && |offsetForRefFrame| == |before| + (if order.orderType == 1 then order.numInCycle else 0)
      && before <= offsetForRefFrame
    }

    // The values about the picture order, the offsets being those from number n on.
    function OrderValues(n: nat): seq<int>
      requires n <= |offsetForRefFrame|
      reads this`order, this`offsetForRefFrame
    {
      order.Values(offsetForRefFrame[n..])
    }

    method ParseCycle(p: Parser, ghost t: Trace, ghost k: Syntax) returns (status: Status, ghost t': Trace)
      requires p.Valid() && At(p, Done, t) && t.rest == CycleSyntax(k)
      modifies this`order, this`offsetForRefFrame, p`byte, p`bit
      ensures p.Valid() && At(p, status, t') && t'.whole == t.whole && |p.Rest()| <= old(|p.Rest()|)
      ensures SameButCycle(order, old(order))
      ensures status == Done ==>
          old(offsetForRefFrame) <= offsetForRefFrame
              && |offsetForRefFrame| == old(|offsetForRefFrame|) + order.numInCycle
      ensures status == Done ==>
          t' == Trace(t.whole, t.vals + (order.CycleValues() + offsetForRefFrame[|old(offsetForRefFrame)|..]), k)
    {
      hide At, BitsFrom, DecodeSyntax, CycleSyntax, OffsetsSyntax, Order.CycleValues, SameButCycle;
      status, t' := ParseDeltas(p, t, k);
      if status != Done {
        return;
      }
      status, t' := ParseOffsets(p, t', k);
      if status == Done {
        TwoParts(t.vals, order.CycleValues(), offsetForRefFrame[|old(offsetForRefFrame)|..]);
      }
    }

    // The values about the cycle before its offsets.
    method ParseDeltas(p: Parser, ghost t: Trace, ghost k: Syntax) returns (status: Status, ghost t': Trace)
      requires p.Valid() && At(p, Done, t) && t.rest == CycleSyntax(k)
      modifies this`order, p`byte, p`bit
      ensures p.Valid() && At(p, status, t') && t'.whole == t.whole && |p.Rest()| <= old(|p.Rest()|)
      ensures SameButCycle(order, old(order)) && (status == Done ==> order.numInCycle >= 0)
      ensures status == Done ==> t' == Trace(t.whole, t.vals + order.CycleValues(), OffsetsSyntax(order.numInCycle, k))
    {
      hide At, BitsFrom, DecodeSyntax, OffsetsSyntax;
      var v;
      status, v, t' := ReadField(p, KindU(1), t);
      order := order.(deltaAlwaysZero := v);
      if status != Done {
        return;
      }
      status, v, t' := ReadField(p, KindSe, t');
      order := order.(nonRefPic := v);
      if status != Done {
        return;
      }
      status, v, t' := ReadField(p, KindSe, t');
      order := order.(topToBottom := v);
      if status != Done {
        return;
      }
      status, v, t' := ReadField(p, KindUe, t');
      order := order.(numInCycle := v);
    }

    // The loop over the reference frames of the cycle. It ends, since it reads bits.
    method ParseOffsets(p: Parser, ghost t: Trace, ghost k: Syntax) returns (status: Status, ghost t': Trace)
      requires p.Valid() && At(p, Done, t) && t.rest == OffsetsSyntax(order.numInCycle, k) && order.numInCycle >= 0
      modifies this`offsetForRefFrame, p`byte, p`bit
      ensures p.Valid() && At(p, status, t') && t'.whole == t.whole && |p.Rest()| <= old(|p.Rest()|)
      ensures old(offsetForRefFrame) <= offsetForRefFrame
      ensures status == Done ==> |offsetForRefFrame| == old(|offsetForRefFrame|) + order.numInCycle
      ensures status == Done ==> t' == Trace(t.whole, t.vals + offsetForRefFrame[|old(offsetForRefFrame)|..], k)
    {
      hide At, BitsFrom, DecodeSyntax;
      ghost var n := |offsetForRefFrame|;
      status, t' := Done, t;
      assert t.vals + offsetForRefFrame[n..] == t.vals;
      var i := 0;
      while status == Done && i < order.numInCycle
        invariant p.Valid() && At(p, status, t') && t'.whole == t.whole && |p.Rest()| <= old(|p.Rest()|)
          && i <= order.numInCycle
        invariant old(offsetForRefFrame) <= offsetForRefFrame
        invariant status == Done ==> |offsetForRefFrame| == n + i
        invariant status == Done ==>
          t' == Trace(t.whole, t.vals + offsetForRefFrame[n..], OffsetsSyntax(order.numInCycle - i, k))
        decreases |p.Rest()|, status == Done
      {
        var v;
        ghost var before := offsetForRefFrame;
        status, v, t' := ReadField(p, KindSe, t');
        if status == Done {
          offsetForRefFrame := offsetForRefFrame + [v];
          assert t.vals + before[n..] + [v] == t.vals + offsetForRefFrame[n..];
        }
        i := i + 1;
      }
    }

    method ParsePicture(p: Parser, ghost t: Trace, ghost k: Syntax) returns (status: Status, ghost t': Trace)
      requires p.Valid() && At(p, Done, t) && t.rest == SizeSyntax(k)
      modifies this`picture, p`byte, p`bit
      ensures p.Valid() && At(p, status, t') && t'.whole == t.whole && |p.Rest()| <= old(|p.Rest()|)
      ensures status == Done ==> t' == Trace(t.whole, t.vals + picture.Values(), k) && picture.Keeps(old(picture))
    {
      hide At, BitsFrom, DecodeSyntax, SizeSyntax, MbsSyntax;
      status, t' := ParseSize(p, t, k);
      if status != Done {
        return;
      }
      ghost var size := picture.SizeValues();
      status, t' := ParseMbs(p, t', k);
      if status == Done {
        TwoParts(t.vals, size, picture.MbsValues());
      }
    }

    method ParseSize(p: Parser, ghost t: Trace, ghost k: Syntax) returns (status: Status, ghost t': Trace)
      requires p.Valid() && At(p, Done, t) && t.rest == SizeSyntax(k)
      modifies this`picture, p`byte, p`bit
      ensures p.Valid() && At(p, status, t') && t'.whole == t.whole && |p.Rest()| <= old(|p.Rest()|)
      ensures status == Done ==> t' == Trace(t.whole, t.vals + picture.SizeValues(), MbsSyntax(k))
      ensures picture.mbsOnly == old(picture.mbsOnly) && picture.mbAdaptive == old(picture.mbAdaptive)
    {
      hide At, BitsFrom, DecodeSyntax, MbsSyntax;
      var v;
      status, v, t' := ReadField(p, KindUe, t);
      picture := picture.(numRefFrames := v);
      if status != Done {
        return;
      }
      status, v, t' := ReadField(p, KindU(1), t');
      picture := picture.(gapsAllowed := v);
      if status != Done {
        return;
      }
      status, v, t' := ReadField(p, KindUe, t');
      picture := picture.(width := v);
      if status != Done {
        return;
      }
      status, v, t' := ReadField(p, KindUe, t');
      picture := picture.(height := v);
    }

    method ParseMbs(p: Parser, ghost t: Trace, ghost k: Syntax) returns (status: Status, ghost t': Trace)
      requires p.Valid() && At(p, Done, t) && t.rest == MbsSyntax(k)
      modifies this`picture, p`byte, p`bit
      ensures p.Valid() && At(p, status, t') && t'.whole == t.whole && |p.Rest()| <= old(|p.Rest()|)
      ensures status == Done ==> t' == Trace(t.whole, t.vals + picture.MbsValues(), k) && picture.Keeps(old(picture))
      ensures picture == old(picture).(mbsOnly := picture.mbsOnly, mbAdaptive := picture.mbAdaptive)
    {
      hide At, BitsFrom, DecodeSyntax;
      var v;
      status, v, t' := ReadField(p, KindU(1), t);
      picture := picture.(mbsOnly := v);
      if status != Done || picture.mbsOnly != 0 {
        return;
      }
      status, v, t' := ReadField(p, KindU(1), t');
      picture := picture.(mbAdaptive := v);
    }

    method ParseCropping(p: Parser, ghost t: Trace, ghost k: Syntax) returns (status: Status, ghost t': Trace)
      requires p.Valid() && At(p, Done, t) && t.rest == CroppingSyntax(k)
      modifies this`cropping, p`byte, p`bit
      ensures p.Valid() && At(p, status, t') && t'.whole == t.whole && |p.Rest()| <= old(|p.Rest()|)
      ensures status == Done ==> t' == Trace(t.whole, t.vals + cropping.Values(), k) && cropping.Keeps(old(cropping))
    {
      hide At, BitsFrom, DecodeSyntax;
      var v;
      status, v, t' := ReadField(p, KindU(1), t);
      cropping := cropping.(direct := v);
      if status != Done {
        return;
      }
      status, v, t' := ReadField(p, KindU(1), t');
      cropping := cropping.(flag := v);
      if status != Done || cropping.flag != 1 {
        return;
      }
      status, v, t' := ReadField(p, KindUe, t');
      cropping := cropping.(left := v);
      if status != Done {
        return;
      }
      status, v, t' := ReadField(p, KindUe, t');
      cropping := cropping.(right := v);
      if status != Done {
        return;
      }
      status, v, t' := ReadField(p, KindUe, t');
      cropping := cropping.(top := v);
      if status != Done {
        return;
      }
      status, v, t' := ReadField(p, KindUe, t');
      cropping := cropping.(bottom := v);
    }

    method ParseVui(p: Parser, ghost t: Trace, ghost k: Syntax) returns (status: Status, ghost t': Trace)
      requires p.Valid() && At(p, Done, t) && t.rest == VuiFlagSyntax(k) && vui.nalHrd != vui.vclHrd
      modifies this`vuiPresent, vui, vui.nalHrd, vui.vclHrd, p`byte, p`bit
      ensures p.Valid() && At(p, status, t') && t'.whole == t.whole && |p.Rest()| <= old(|p.Rest()|)
      ensures status == Done ==> CompleteVui() && t' == Trace(t.whole, t.vals + VuiValues(), k)
      ensures vuiPresent != 1 ==> unchanged(vui) && unchanged(vui.nalHrd) && unchanged(vui.vclHrd)
    {
      hide At, BitsFrom, DecodeSyntax, VuiSyntax, VuiParameters.Values, VuiParameters.CompleteHrds,
        VuiParameters.AbsentAreZero;
      status, vuiPresent, t' := ReadField(p, KindU(1), t);
      if status == Done && vuiPresent == 1 {
        status, t' := vui.Parse(p, t', k);
        if status == Done {
          assert t.vals + [vuiPresent] + vui.Values() == t.vals + VuiValues();
        }
      }
    }

    // The video usability information is complete if it is present.
    predicate CompleteVui()
      reads this`vuiPresent, vui, vui.nalHrd, vui.vclHrd
    {
      vuiPresent == 1 ==> vui.valid && vui.CompleteHrds() && vui.AbsentAreZero()
    }

    function VuiValues(): seq<int>
      requires CompleteVui()
      reads this`vuiPresent, vui, vui.nalHrd, vui.vclHrd
    {
      [vuiPresent] + if vuiPresent == 1 then vui.Values() else []
    }

    // All values that are present, in the order of the syntax, the offsets being those from
    // number n on.
    ghost function Values(n: nat): seq<int>
      requires n <= |offsetForRefFrame| && CompleteVui()
      reads this`header, this`extension, this`scalingLists, this`order, this`offsetForRefFrame, this`picture,
            this`cropping,
            this`vuiPresent, vui, vui.nalHrd, vui.vclHrd
    {
      ProfileValues() + PartsValues(n)
    }

    ghost function ProfileValues(): seq<int>
      reads this`header, this`extension, this`scalingLists
    {
      header.Values() + ExtensionValues()
    }

    // The fields that are not present are kept.
    predicate Keeps(e: Extension, o: Order, q: Picture, c: Cropping)
      reads this`header, this`extension, this`order, this`picture, this`cropping
    {
      && (if HasExtension(header.profile) then extension.Keeps(e) else extension == e)
      && order.Keeps(o) && picture.Keeps(q) && cropping.Keeps(c)
    }

    method ParseProfile(p: Parser, ghost t: Trace, ghost k: Syntax) returns (status: Status, ghost t': Trace)
      requires p.Valid() && At(p, Done, t) && t.rest == HeaderSyntax(k)
      modifies this`header, this`extension, this`scalingLists, p`byte, p`bit
      ensures p.Valid() && At(p, status, t') && t'.whole == t.whole && |p.Rest()| <= old(|p.Rest()|)
      ensures status == Done ==> t' == Trace(t.whole, t.vals + ProfileValues(), k)
      ensures status == Done ==>
          if HasExtension(header.profile) then extension.Keeps(old(extension)) else extension == old(extension)
    {
      hide At, BitsFrom, DecodeSyntax, HeaderSyntax, ExtensionSyntax, Header.Values, Extension.Values,
        Extension.Keeps, HasExtension;
      status, t' := ParseHeader(p, t, k);
      if status != Done {
        return;
      }
      ghost var before := header.Values();
      status, t' := ParseExtension(p, t', k);
      if status == Done {
        TwoParts(t.vals, before, ExtensionValues());
      }
    }

    // The parts after the profile and its extension.
    method ParseParts(p: Parser, ghost t: Trace, ghost k: Syntax) returns (status: Status, ghost t': Trace)
      requires p.Valid() && At(p, Done, t) && t.rest == PartsSyntax(k) && vui.nalHrd != vui.vclHrd
      modifies this`order, this`offsetForRefFrame, this`picture, this`cropping, this`vuiPresent,
               vui, vui.nalHrd, vui.vclHrd, p`byte, p`bit
      ensures p.Valid() && At(p, status, t') && t'.whole == t.whole && |p.Rest()| <= old(|p.Rest()|)
      ensures status == Done ==> CompleteVui() && OffsetsAdded(old(offsetForRefFrame))
      ensures status == Done ==> t' == Trace(t.whole, t.vals + PartsValues(|old(offsetForRefFrame)|), k)
      ensures status == Done ==> order.Keeps(old(order)) && picture.Keeps(old(picture)) && cropping.Keeps(old(cropping))
    {
      hide At, BitsFrom, DecodeSyntax, OrderSyntax, SizeSyntax, CroppingSyntax, VuiFlagSyntax, Order.Values,
        Picture.Values,
        Cropping.Values, Order.Keeps, Picture.Keeps, Cropping.Keeps, SequenceParameterSet.CompleteVui,
          SequenceParameterSet.VuiValues;
      ghost var n := |offsetForRefFrame|;
      status, t' := ParseOrder(p, t, SizeSyntax(CroppingSyntax(VuiFlagSyntax(k))));
      if status != Done {
        return;
      }
      status, t' := ParsePicture(p, t', CroppingSyntax(VuiFlagSyntax(k)));
      if status != Done {
        return;
      }
      status, t' := ParseCropping(p, t', VuiFlagSyntax(k));
      if status != Done {
        return;
      }
      status, t' := ParseVui(p, t', k);
      if status == Done {
        FourParts(t.vals, OrderValues(n), picture.Values(), cropping.Values(), VuiValues());
      }
    }

    function PartsValues(n: nat): seq<int>
      requires n <= |offsetForRefFrame| && CompleteVui()
      reads this`order, this`offsetForRefFrame, this`picture, this`cropping, this`vuiPresent, vui, vui.nalHrd,
            vui.vclHrd
    {
      OrderValues(n) + picture.Values() + cropping.Values() + VuiValues()
    }

    // The profile, and the value after the header: the chroma format for the profiles that
    // have one, else the size of frame numbers.
    ghost predicate ProfileInPlace(vals: seq<int>)
      reads this`header, this`extension, this`order
    {
      && |vals| > 8 && header.profile == vals[0] && header.level == vals[6] && header.id == vals[7]
      && if vals[0] in {44, 83, 86, 100, 110, 122, 244} then extension.chromaFormat == vals[8]
         else order.log2MaxFrameNum == vals[8]
    }

    // The fields are those of the structure if all of it is there, and not valid if it is
    // not complete. Nothing is known when a value is out of range.
    ghost predicate Parsed(r: Reading<seq<int>>, n: nat)
      reads this, vui, vui.nalHrd, vui.vclHrd
    {
      && (r.Read? ==> valid) && (r.Truncated? ==> !valid)
      && (valid ==> n <= |offsetForRefFrame| && CompleteVui())
      && (r.Read? ==> Values(n) == r.value && ProfileInPlace(r.value))
    }

    // The parser is at the end of the structure and of the trailing bits, if they are there.
    ghost predicate TrailingParsed(p: Parser, bits: seq<Bit>)
      requires p.Valid()
      reads this`trailingBitsValid, this`trailingBitsCount, p
    {
      && trailingBitsValid == TrailingBits(bits, ToNextByte(bits)) && trailingBitsCount == p.RemainingBits()
      && p.Rest() == if trailingBitsValid then bits[ToNextByte(bits)..] else bits
    }

    // The fields are valid if and only if this is a sequence parameter set that is
    // complete, as long as its values are in range.
    method ParseBody(p: Parser) returns (status: Status)
      requires p.Valid() && vui.nalHrd != vui.vclHrd
      modifies this, vui, vui.nalHrd, vui.vclHrd, p`byte, p`bit
      ensures p.Valid() && valid == (status == Done)
      ensures forbiddenZeroBit == old(forbiddenZeroBit) && nalRefIdc == old(nalRefIdc)
              && nalUnitType == old(nalUnitType)
      ensures nalUnitType != AVC_AUT_SEQPARAMS ==> status == Refused && p.byte == old(p.byte) && p.bit == old(p.bit)
      ensures nalUnitType == AVC_AUT_SEQPARAMS ==>
          Parsed(DecodeSyntax(SpsSyntax(), old(p.Rest())), |old(offsetForRefFrame)|)
      ensures status == PastEnd && !DecodeSyntax(SpsSyntax(), old(p.Rest())).OutOfRange? ==> !CleanEnd(p.data)
      ensures valid && DecodeSyntax(SpsSyntax(), old(p.Rest())).Read? ==>
          TrailingParsed(p, DecodeSyntax(SpsSyntax(), old(p.Rest())).rest)
      ensures valid ==> OffsetsAdded(old(offsetForRefFrame))
      ensures valid ==> Keeps(old(extension), old(order), old(picture), old(cropping))
    {
      hide BitsFrom, DecodeSyntax, SpsSyntax, CleanEnd, SequenceParameterSet.TrailingParsed,
        SequenceParameterSet.Values, SequenceParameterSet.CompleteVui, SequenceParameterSet.Keeps;
      if nalUnitType != AVC_AUT_SEQPARAMS {
        valid := false;
        return Refused;
      }
      ghost var t;
      status, t := ParseFields(p);
      valid := status == Done;
      if valid {
        ParseTrailing(p);
      }
    }

    method ParseTrailing(p: Parser)
      requires p.Valid()
      modifies this`trailingBitsValid, this`trailingBitsCount, p`byte, p`bit
      ensures p.Valid() && TrailingParsed(p, old(p.Rest()))
    {
      hide BitsFrom, TrailingBits;
      UpToNextByte(p);
      trailingBitsValid := p.RbspTrailingBits();
      trailingBitsCount := p.RemainingBits();
    }

    method ParseFields(p: Parser) returns (status: Status, ghost t: Trace)
      requires p.Valid() && vui.nalHrd != vui.vclHrd
      modifies this`header, this`extension, this`scalingLists, this`order, this`offsetForRefFrame, this`picture,
        this`cropping,
               this`vuiPresent, vui, vui.nalHrd, vui.vclHrd, p`byte, p`bit
      ensures p.Valid() && t.whole == DecodeSyntax(SpsSyntax(), old(p.Rest()))
      ensures status == Done ==>
          CompleteVui() && OffsetsAdded(old(offsetForRefFrame)) && t.vals == Values(|old(offsetForRefFrame)|)
      ensures status == Done ==>
              Keeps(old(extension), old(order), old(picture), old(cropping)) && ProfileInPlace(t.vals)
      ensures Agrees(t.whole, status, t.vals, p.Rest())
      ensures status == PastEnd && !t.whole.OutOfRange? ==> !CleanEnd(p.data)
    {
      hide At, BitsFrom, DecodeSyntax, HeaderSyntax, PartsSyntax, HasExtension, CleanEnd,
        SequenceParameterSet.CompleteVui,
        SequenceParameterSet.ProfileValues, SequenceParameterSet.PartsValues,
        Extension.Keeps, Order.Keeps, Picture.Keeps, Cropping.Keeps;
      t := Begin(SpsSyntax(), p.Rest());
      AtBegin(p, SpsSyntax());
      status, t := ParseProfile(p, t, PartsSyntax(End));
      if status == Done {
        assert t.vals == ProfileValues();
        status, t := ParseParts(p, t, End);
      }
      AtEnd(p, status, t);
      if status == Done {
        FieldsInPlace(this, |old(offsetForRefFrame)|);
      }
    }

    // Parse a whole access unit.
    method Parse(area: seq<Byte>) returns (status: Status)
      requires vui.nalHrd != vui.vclHrd
      modifies this, vui, vui.nalHrd, vui.vclHrd
      ensures valid == (status == Done)
      ensures area == [] ==> Cleared()
      ensures area != [] ==> NalParsed(area[0]) && Parsed(SpsReading(area), |old(offsetForRefFrame)|)
      ensures area != [] && status == PastEnd && !SpsReading(area).OutOfRange? ==> !CleanEnd(area[1..])
      ensures area != [] && SpsReading(area).Read? ==> TrailingRead(area, SpsReading(area).rest)
      ensures valid ==> OffsetsAdded(old(offsetForRefFrame))
      ensures valid && order.orderType == 1 ==>
              (|offsetForRefFrame| == order.numInCycle <==> old(offsetForRefFrame) == [])
      ensures valid ==> Keeps(old(extension), old(order), old(picture), old(cropping))
    {
      hide BitsFrom, Bits, PayloadFrom, DecodeSyntax, SpsSyntax, CleanEnd, NothingDropped,
        SequenceParameterSet.Values, SequenceParameterSet.CompleteVui,
        SequenceParameterSet.Keeps, SequenceParameterSet.NalParsed;
      if |area| < 1 {
        Clear();
        return Refused;
      }
      valid := true;
      ParseNal(area[0]);
      var p := new Parser(area[1..]);
      assert p.Rest() == Bits(PayloadFrom(area[1..], 0));
      status := ParseBody(p);
      assert nalUnitType == area[0] % 32;
      if SpsReading(area).Read? {
        CountIsExact(p);
      }
    }

    // The trailing bits, and what is left after them. The count is exact unless a byte of
    // the access unit is dropped.
    ghost predicate TrailingRead(area: seq<Byte>, bits: seq<Bit>)
      requires area != []
      reads this`trailingBitsValid, this`trailingBitsCount
    {
      && trailingBitsValid == TrailingBits(bits, ToNextByte(bits))
      && trailingBitsCount >= LeftAfter(bits, trailingBitsValid)
      && (NothingDropped(area[1..]) ==> trailingBitsCount == LeftAfter(bits, trailingBitsValid))
    }

    method ParseNal(b: Byte)
      modifies this`forbiddenZeroBit, this`nalRefIdc, this`nalUnitType
      ensures NalParsed(b) && nalUnitType == b % 32
    {
      forbiddenZeroBit := b / 128 % 2;
      nalRefIdc := b / 32 % 4;
      nalUnitType := b % 32;
    }

    // The first byte of an access unit.
    predicate NalParsed(b: Byte)
      reads this`forbiddenZeroBit, this`nalRefIdc, this`nalUnitType
    {
      forbiddenZeroBit * 128 + nalRefIdc * 32 + nalUnitType == b && 0 <= forbiddenZeroBit < 2 && 0 <= nalRefIdc < 4
        && 0 <= nalUnitType < 32
    }
  }

  predicate SameButCycle(o: Order, before: Order) {
    o.log2MaxFrameNum == before.log2MaxFrameNum && o.orderType == before.orderType && o.log2MaxLsb == before.log2MaxLsb
  }

  // What reading an access unit should give.
  function SpsReading(area: seq<Byte>): Reading<seq<int>>
    requires area != []
  {
    if area[0] % 32 != AVC_AUT_SEQPARAMS then Truncated else DecodeSyntax(SpsSyntax(), Bits(PayloadFrom(area[1..], 0)))
  }

  // The number of bits up to the next byte boundary, or 8.
  function ToNextByte(bits: seq<Bit>): nat {
    (|bits| - 1) % 8 + 1
  }

  function LeftAfter(bits: seq<Bit>, skipped: bool): int {
    |bits| - if skipped then ToNextByte(bits) else 0
  }

  predicate NothingDropped(data: seq<Byte>) {
    forall p :: 0 <= p < |data| ==> !Dropped(data, p)
  }

  lemma CountIsExact(p: Parser)
    requires p.Valid()
    ensures p.RemainingBits() >= |p.Rest()| && (NothingDropped(p.data) ==> p.RemainingBits() == |p.Rest()|)
  {
    hide Dropped, DroppedFrom;
    if p.byte < |p.data| {
      NoDropped(p.data, p.byte + 1);
    }
  }

  // The values of a sequence parameter set, written, followed by other bits and escaped, are
  // read back, with the trailing bits that follow.
  method ReadBack(first: Byte, payload: seq<Byte>, ghost vals: seq<int>, ghost tail: seq<Bit>)
    returns (sps: SequenceParameterSet)
    requires first % 32 == AVC_AUT_SEQPARAMS && Follows(SpsSyntax(), vals)
    requires Bits(payload) == EncodeSyntax(SpsSyntax(), vals) + tail
    ensures fresh(sps) && sps.valid && sps.CompleteVui() && sps.Values(0) == vals && sps.ProfileInPlace(vals)
    ensures sps.trailingBitsValid == TrailingBits(tail, ToNextByte(tail))
  {
    hide Bits, PayloadFrom, Escape, SpsSyntax, DecodeSyntax, EncodeSyntax, Follows, TrailingBits, NothingDropped,
      SequenceParameterSet.Values, SequenceParameterSet.CompleteVui, SequenceParameterSet.Cleared;
    var area := [first] + Escape(0, payload);
    assert area[1..] == Escape(0, payload);
    EscapedPayload(payload);
    DecodeEncodeSyntax(SpsSyntax(), vals, tail);
    sps := new SequenceParameterSet(area);
  }

  lemma FieldsInPlace(sps: SequenceParameterSet, n: nat)
    requires n <= |sps.offsetForRefFrame| && sps.CompleteVui()
    ensures sps.ProfileInPlace(sps.Values(n))
  {
    hide Picture.Values, Cropping.Values, SequenceParameterSet.VuiValues, SequenceParameterSet.CompleteVui;
  }

  // Where the type of picture order and the number of reference frames of a cycle are, when
  // there is no extension.
  lemma CountIsThere(sps: SequenceParameterSet, n: nat)
    requires n <= |sps.offsetForRefFrame| && sps.CompleteVui() && |sps.Values(n)| > 13
    ensures sps.Values(n)[0] == sps.header.profile
    ensures !HasExtension(sps.header.profile) ==> sps.Values(n)[9] == sps.order.orderType
    ensures !HasExtension(sps.header.profile) && sps.order.orderType == 1 ==> sps.Values(n)[13] == sps.order.numInCycle
  {
    hide Picture.Values, Cropping.Values, HasExtension, Extension.Values,
      SequenceParameterSet.VuiValues, SequenceParameterSet.CompleteVui;
  }

  // Offsets are kept: parsing twice the same set of type 1 leaves twice its offsets.
  method ParseTwice(first: Byte, payload: seq<Byte>, ghost vals: seq<int>, ghost tail: seq<Bit>)
    returns (sps: SequenceParameterSet)
    requires first % 32 == AVC_AUT_SEQPARAMS && Follows(SpsSyntax(), vals)
    requires Bits(payload) == EncodeSyntax(SpsSyntax(), vals) + tail
    requires |vals| > 13 && !HasExtension(vals[0]) && vals[9] == 1
    ensures sps.valid && sps.order.numInCycle == vals[13] && |sps.offsetForRefFrame| == 2 * vals[13]
  {
    hide Bits, PayloadFrom, Escape, SpsSyntax, DecodeSyntax, EncodeSyntax, Follows, TrailingBits, NothingDropped,
      HasExtension,
      SequenceParameterSet.Values, SequenceParameterSet.CompleteVui, SequenceParameterSet.Cleared;
    var area := [first] + Escape(0, payload);
    assert area[1..] == Escape(0, payload);
    EscapedPayload(payload);
    DecodeEncodeSyntax(SpsSyntax(), vals, tail);
    sps := new SequenceParameterSet(area);
    CountIsThere(sps, 0);
    var _ := sps.Parse(area);
    CountIsThere(sps, vals[13]);
  }

  lemma UpToNextByte(p: Parser)
    requires p.Valid()
    ensures ToNextByte(p.Rest()) == 8 - p.bit
  {
    Alignment(p.data, p.byte, p.bit);
  }

  lemma TwoParts(vals: seq<int>, a: seq<int>, b: seq<int>)
    ensures vals + a + b == vals + (a + b)
  {
  }
}
