/** The hex encoding of the cleaned text: each code unit is written with
    `toString(16)`, a single digit is padded with one `0`, and the pieces are
    joined with no separator. */
module Encoder {
  import opened JsText
  import opened Hex

  /** The piece one code unit contributes: its `toString(16)` text, with a
      `0` put in front when that text has one digit. Only a one-digit result
      is padded, so a unit of `0x100` or more keeps its three or four digits. */
  function UnitHex(u: CodeUnit): (r: JsString)
    ensures AllHexDigits(r) && HexValue(r) == u
    ensures 2 <= |r| <= 4
    ensures |r| == 2 <==> u < 0x100
  {
    ToHexLength(u);
    var h := ToHex(u);
    if |h| == 1 then LeadingZero(h); ['0' as int] + h else h
  }

  /** `Array.prototype.join('')`. */
  function Join(pieces: seq<JsString>): JsString {
    if pieces == [] then [] else Join(pieces[..|pieces| - 1]) + pieces[|pieces| - 1]
  }

  predicate AllBelow0x100(t: JsString) {
    forall i | 0 <= i < |t| :: t[i] < 0x100
  }

  /** The hex string of a text: its units' pieces, in order, without separators. */
  function HexOf(t: JsString): (r: JsString)
    ensures AllHexDigits(r)
    ensures 2 * |t| <= |r| <= 4 * |t|
    ensures |r| == 2 * |t| <==> AllBelow0x100(t)
  {
    if t == [] then []
    else
      AllBelowSnoc(t);
      HexDigitsConcat(HexOf(t[..|t| - 1]), UnitHex(t[|t| - 1]));
      HexOf(t[..|t| - 1]) + UnitHex(t[|t| - 1])
  }

  lemma AllBelowSnoc(t: JsString)
    requires t != []
    ensures AllBelow0x100(t) <==> AllBelow0x100(t[..|t| - 1]) && t[|t| - 1] < 0x100
  {
    var p := t[..|t| - 1];
    assert forall i | 0 <= i < |p| :: p[i] == t[i];
  }

  lemma HexDigitsConcat(x: JsString, y: JsString)
    requires AllHexDigits(x) && AllHexDigits(y)
    ensures AllHexDigits(x + y)
  {
    assert forall i | |x| <= i < |x + y| :: (x + y)[i] == y[i - |x|];
  }

  /** The hex text of the `i`-th code unit sits at `[2*i, 2*i + 2)` when every
      unit is below `0x100`. */
  lemma {:induction false} HexOfPair(t: JsString, i: nat)
    requires AllBelow0x100(t) && i < |t|
    ensures |HexOf(t)| == 2 * |t|
    ensures HexOf(t)[2 * i..2 * i + 2] == UnitHex(t[i])
    decreases |t|
  {
    var p := t[..|t| - 1];
    HexOfLast(t);
    var h, u := HexOf(p), UnitHex(t[|t| - 1]);
    if i < |t| - 1 {
      HexOfPair(p, i);
      SliceLeft(h, u, 2 * i, 2 * i + 2);
      assert t[i] == p[i];
    } else {
      SliceRight(h, u);
    }
  }

  /** The last unit's piece closes the hex string, two digits long when that
      unit is below `0x100`. */
  lemma HexOfLast(t: JsString)
    requires AllBelow0x100(t) && t != []
    ensures AllBelow0x100(t[..|t| - 1])
    ensures HexOf(t) == HexOf(t[..|t| - 1]) + UnitHex(t[|t| - 1])
    ensures |HexOf(t[..|t| - 1])| == 2 * (|t| - 1) && |UnitHex(t[|t| - 1])| == 2
  {
    var p := t[..|t| - 1];
    assert forall k | 0 <= k < |p| :: p[k] == t[k];
  }

  lemma {:induction false} JoinSnoc(pieces: seq<JsString>, p: JsString)
    ensures Join(pieces + [p]) == Join(pieces) + p
  {
    assert (pieces + [p])[..|pieces|] == pieces;
  }

  lemma {:induction false} HexOfSnoc(t: JsString, i: nat)
    requires i < |t|
    ensures HexOf(t[..i + 1]) == HexOf(t[..i]) + UnitHex(t[i])
  {
    assert t[..i + 1][..i] == t[..i];
  }

  /** The loop of the source: each unit's piece is pushed onto `hexCodes`, and
      `hexCodes` is joined afterwards. */
  method HexEncode(cleanedHtml: JsString) returns (hexCodesString: JsString)
    ensures hexCodesString == HexOf(cleanedHtml)
  {
    var hexCodes: seq<JsString> := [];
    var i := 0;
    while i < |cleanedHtml|
      invariant 0 <= i <= |cleanedHtml|
      invariant Join(hexCodes) == HexOf(cleanedHtml[..i])
    {
      var piece := UnitHex(cleanedHtml[i]);
      HexOfSnoc(cleanedHtml, i);
      JoinSnoc(hexCodes, piece);
      hexCodes := hexCodes + [piece];
      i := i + 1;
    }
    assert cleanedHtml[..i] == cleanedHtml;
    hexCodesString := Join(hexCodes);
  }
}
