/** The decoder embedded in the generated loader: it cuts the hex literal `a`
    into two-character slices, turns each slice back into a code unit with
    `String.fromCharCode(parseInt(slice, 16))`, concatenates them, and then
    rewrites `</script>` to `'<'+'/script>'`. The string it hands to
    `document.write` is the result. */
module Decoder {
  import opened JsText
  import opened Hex
  import opened Encoder

  /** `a.substring(start, end)`: both ends are clamped to the length, and the
      smaller one is the start. */
  function Substring(a: JsString, start: nat, end: nat): (r: JsString)
    ensures |r| <= |a|
  {
    var s := if start < |a| then start else |a|;
    var e := if end < |a| then end else |a|;
    if s <= e then a[s..e] else a[e..s]
  }

  /** What the first loop pushes into `b`: the slices at `0, 2, 4, ...`; the
      last one has a single character when `a` has odd length. */
  function Slices(a: JsString): (b: seq<JsString>)
    ensures |b| == (|a| + 1) / 2
  {
    seq((|a| + 1) / 2, k requires 0 <= k < (|a| + 1) / 2 => Substring(a, 2 * k, 2 * k + 2))
  }

  /** `String.fromCharCode(x)` for the result of `parseInt`: `ToUint16`, which
      maps `NaN` to 0 and reduces an integer modulo 2^16. */
  function FromCharCode(x: Option<int>): (u: CodeUnit)
    ensures x.None? ==> u == 0
    ensures x.Some? ==> (x.value - u) % 0x1_0000 == 0
  {
    match x
    case None => 0
    case Some(v) => v % 0x1_0000
  }

  /** What the second loop appends to `d`, slice by slice. */
  function CharsOf(b: seq<JsString>): (d: JsString)
    ensures |d| == |b|
  {
    seq(|b|, k requires 0 <= k < |b| => FromCharCode(ParseInt16(b[k])))
  }

  /** `s.replace(/pat/g, rep)` for a pattern without special characters and a
      replacement without `$`: occurrences are replaced left to right, and
      the scan resumes after each one. */
  function ReplaceAll(s: JsString, pat: JsString, rep: JsString): JsString
    requires |pat| > 0
    decreases |s|
  {
    if s == [] then []
    else if OccursAt(s, 0, pat) then rep + ReplaceAll(s[|pat|..], pat, rep)
    else [s[0]] + ReplaceAll(s[1..], pat, rep)
  }

  /** Text in which the pattern does not occur is left unchanged. */
  lemma {:induction false} ReplaceAllAbsent(s: JsString, pat: JsString, rep: JsString)
    requires |pat| > 0 && !Contains(s, pat)
    ensures ReplaceAll(s, pat, rep) == s
    decreases |s|
  {
    if s != [] {
      assert !OccursAt(s, 0, pat);
      forall k | 0 <= k <= |s[1..]| - |pat| ensures !OccursAt(s[1..], k, pat) {
        OccursInSuffix(s, 1, k, pat);
      }
      ReplaceAllAbsent(s[1..], pat, rep);
      assert s == [s[0]] + s[1..];
    }
  }

  /** One step of the scan past a unit where no match starts. */
  lemma ReplaceAllSkip(s: JsString, pat: JsString, rep: JsString)
    requires |pat| > 0 && s != [] && !OccursAt(s, 0, pat)
    ensures ReplaceAll(s, pat, rep) == [s[0]] + ReplaceAll(s[1..], pat, rep)
  {
  }

  /** The global replace finds the first occurrence of the pattern, puts
      `rep` in its place, and resumes the scan behind it; the text before
      that occurrence is kept. */
  lemma ReplaceAllFirst(s: JsString, pat: JsString, rep: JsString, k: nat)
    requires |pat| > 0 && OccursAt(s, k, pat)
    requires forall j | 0 <= j < k :: !OccursAt(s, j, pat)
    ensures ReplaceAll(s, pat, rep) == s[..k] + rep + ReplaceAll(s[k + |pat|..], pat, rep)
  {
    ReplaceAllFrom(s, pat, rep, 0, k);
    assert s[0..] == s;
    assert s[0..k] == s[..k];
  }

  /** The same, for the scan started at index `i` at or before the first
      occurrence. */
  lemma {:induction false} ReplaceAllFrom(s: JsString, pat: JsString, rep: JsString, i: nat, k: nat)
    requires |pat| > 0 && i <= k && OccursAt(s, k, pat)
    requires forall j | i <= j < k :: !OccursAt(s, j, pat)
    ensures ReplaceAll(s[i..], pat, rep) == s[i..k] + rep + ReplaceAll(s[k + |pat|..], pat, rep)
    decreases k - i
  {
    if i == k {
      ReplaceAllAtMatch(s, pat, rep, k);
    } else {
      ReplaceAllFrom(s, pat, rep, i + 1, k);
      ReplaceAllFromStep(s, pat, rep, i, k);
    }
  }

  lemma ReplaceAllAtMatch(s: JsString, pat: JsString, rep: JsString, k: nat)
    requires |pat| > 0 && OccursAt(s, k, pat)
    ensures ReplaceAll(s[k..], pat, rep) == s[k..k] + rep + ReplaceAll(s[k + |pat|..], pat, rep)
  {
    OccursInSuffix(s, k, 0, pat);
    ReplaceAllAtFront(s[k..], pat, rep);
    assert s[k..][|pat|..] == s[k + |pat|..];
    assert s[k..k] + rep == rep;
  }

  lemma ReplaceAllFromStep(s: JsString, pat: JsString, rep: JsString, i: nat, k: nat)
    requires |pat| > 0 && i < k && k + |pat| <= |s| && !OccursAt(s, i, pat)
    requires ReplaceAll(s[i + 1..], pat, rep) == s[i + 1..k] + rep + ReplaceAll(s[k + |pat|..], pat, rep)
    ensures ReplaceAll(s[i..], pat, rep) == s[i..k] + rep + ReplaceAll(s[k + |pat|..], pat, rep)
  {
    var rest := ReplaceAll(s[k + |pat|..], pat, rep);
    OccursInSuffix(s, i, 0, pat);
    ReplaceAllSkip(s[i..], pat, rep);
    assert s[i..][1..] == s[i + 1..];
    ConcatAssoc(s[i + 1..k], rep, rest);
    ConsSlice(s, i, k, rep + rest);
    ConcatAssoc(s[i..k], rep, rest);
  }

  lemma ReplaceAllAtFront(s: JsString, pat: JsString, rep: JsString)
    requires |pat| > 0 && OccursAt(s, 0, pat)
    ensures ReplaceAll(s, pat, rep) == rep + ReplaceAll(s[|pat|..], pat, rep)
  {
  }

  lemma ConcatAssoc(x: JsString, y: JsString, z: JsString)
    ensures x + y + z == x + (y + z)
  {
  }

  lemma ConsSlice(s: JsString, i: nat, k: nat, tail: JsString)
    requires i < k <= |s|
    ensures [s[i]] + (s[i + 1..k] + tail) == s[i..k] + tail
  {
    assert s[i..k] == [s[i]] + s[i + 1..k];
  }

  /** The text the regex `/<\x2Fscript>/g` matches. */
  const ScriptClosePattern: JsString := Units("</script>")

  /** The value of the expression `'<'+'/script>'`. */
  const ScriptCloseReplacement: JsString := Units("<") + Units("/script>")

  /** Replacing a pattern by itself changes nothing. */
  lemma {:induction false} ReplaceAllSelf(s: JsString, pat: JsString)
    requires |pat| > 0
    ensures ReplaceAll(s, pat, pat) == s
    decreases |s|
  {
    if s == [] {
    } else if OccursAt(s, 0, pat) {
      ReplaceAllSelf(s[|pat|..], pat);
      assert s == pat + s[|pat|..];
    } else {
      ReplaceAllSelf(s[1..], pat);
      assert s == [s[0]] + s[1..];
    }
  }

  /** The substitution in the loader is the identity: `'<'+'/script>'`
      evaluates to the very text the regex matches. It keeps the loader's
      source free of a raw `</script>`; it does not change the decoded text. */
  lemma {:induction false} ScriptSubstitutionIsIdentity(s: JsString)
    ensures ReplaceAll(s, ScriptClosePattern, ScriptCloseReplacement) == s
  {
    assert ScriptCloseReplacement == ScriptClosePattern;
    ReplaceAllSelf(s, ScriptClosePattern);
  }

  /** The string the loader passes to `document.write`, given its literal `a`. */
  function Decoded(a: JsString): (d: JsString)
    ensures |d| == (|a| + 1) / 2
  {
    ScriptSubstitutionIsIdentity(CharsOf(Slices(a)));
    ReplaceAll(CharsOf(Slices(a)), ScriptClosePattern, ScriptCloseReplacement)
  }

  /** The two loops and the substitution of the loader, as written. */
  method Decode(a: JsString) returns (d: JsString)
    ensures d == Decoded(a)
  {
    var b: seq<JsString> := [];
    var c := 0;
    while c < |a|
      invariant c == 2 * |b| && |b| <= (|a| + 1) / 2
      invariant forall k | 0 <= k < |b| :: b[k] == Substring(a, 2 * k, 2 * k + 2)
    {
      b := b + [Substring(a, c, c + 2)];
      c := c + 2;
    }
    assert b == Slices(a);
    d := [];
    c := 0;
    while c < |b|
      invariant 0 <= c <= |b|
      invariant d == CharsOf(b[..c])
    {
      CharsOfSnoc(b, c);
      d := d + [FromCharCode(ParseInt16(b[c]))];
      c := c + 1;
    }
    assert b[..c] == b;
    d := ReplaceAll(d, ScriptClosePattern, ScriptCloseReplacement);
  }

  lemma CharsOfSnoc(b: seq<JsString>, c: nat)
    requires c < |b|
    ensures CharsOf(b[..c + 1]) == CharsOf(b[..c]) + [FromCharCode(ParseInt16(b[c]))]
  {
    var x, y := CharsOf(b[..c + 1]), CharsOf(b[..c]) + [FromCharCode(ParseInt16(b[c]))];
    forall k | 0 <= k < c + 1 ensures x[k] == y[k] {
      assert b[..c + 1][k] == b[k];
      if k < c {
        assert b[..c][k] == b[k];
      }
    }
  }

  /** Round trip: when every code unit is below `0x100`, decoding the hex
      string recovers the text exactly. */
  lemma {:induction false} DecodeHexOf(t: JsString)
    requires AllBelow0x100(t)
    ensures Decoded(HexOf(t)) == t
  {
    var h := HexOf(t);
    var b := Slices(h);
    assert |h| == 2 * |t|;
    forall k | 0 <= k < |t| ensures CharsOf(b)[k] == t[k] {
      SliceDecodes(t, k);
    }
    assert CharsOf(b) == t;
    ScriptSubstitutionIsIdentity(t);
  }

  /** The round trip holds exactly when every code unit is below `0x100`: a
      wider unit has three or four digits, the pairs fall out of step, and
      the decoded text comes out longer than the original. */
  lemma {:induction false} RoundTripExactlyBelow0x100(t: JsString)
    ensures Decoded(HexOf(t)) == t <==> AllBelow0x100(t)
  {
    if AllBelow0x100(t) {
      DecodeHexOf(t);
    } else {
      var h := HexOf(t);
      ScriptSubstitutionIsIdentity(CharsOf(Slices(h)));
      assert |Decoded(h)| == (|h| + 1) / 2 > |t|;
    }
  }

  lemma {:induction false} SliceDecodes(t: JsString, k: nat)
    requires AllBelow0x100(t) && k < |t|
    ensures |Slices(HexOf(t))| == |t|
    ensures FromCharCode(ParseInt16(Slices(HexOf(t))[k])) == t[k]
  {
    HexOfPair(t, k);
    SliceAt(HexOf(t), k);
    UnitDecodes(t[k]);
  }

  lemma {:induction false} SliceAt(a: JsString, k: nat)
    requires 2 * k + 2 <= |a|
    ensures Slices(a)[k] == a[2 * k..2 * k + 2]
  {
  }

  lemma {:induction false} UnitDecodes(u: CodeUnit)
    requires u < 0x100
    ensures FromCharCode(ParseInt16(UnitHex(u))) == u
  {
    DigitsDecode(UnitHex(u), u);
  }

  lemma DigitsDecode(h: JsString, u: CodeUnit)
    requires |h| >= 1 && AllHexDigits(h) && HexValue(h) == u
    ensures FromCharCode(ParseInt16(h)) == u
  {
    ParseHexDigits(h);
    FromCharCodeInRange(u);
  }

  lemma FromCharCodeInRange(u: CodeUnit)
    ensures FromCharCode(Some(u)) == u
  {
  }

  /** The smallest wide unit: `0x100` is written with three digits, so the
      decoder's pairs `10` and `0` no longer line up with the units. */
  lemma WideUnitHex()
    ensures HexOf([0x100]) == ['1' as int, '0' as int, '0' as int]
  {
    var one, zero := '1' as int, '0' as int;
    assert ToHex(1) == [one];
    assert ToHex(0x10) == [one, zero] by { assert 0x10 / 16 == 1; }
    assert ToHex(0x100) == [one, zero, zero] by { assert 0x100 / 16 == 0x10; }
    assert [0x100][..0] == [];
    assert UnitHex(0x100) == ToHex(0x100);
  }
}
