/** JavaScript strings as the obfuscator sees them: sequences of UTF-16 code
    units, together with the few built-in string operations it relies on
    (`trim`, the `\s` class, literal substring search). */
module JsText {

  /** One UTF-16 code unit, the value `charCodeAt` returns. */
  type CodeUnit = u: int | 0 <= u < 0x1_0000

  /** A JavaScript string value. */
  type JsString = seq<CodeUnit>

  datatype Option<T> = None | Some(value: T)

  const Space: CodeUnit := 0x20
  const Lt: CodeUnit := 0x3C
  const Slash: CodeUnit := 0x2F
  const Bang: CodeUnit := 0x21

  predicate IsBmp(s: string) {
    forall i | 0 <= i < |s| :: s[i] as int < 0x1_0000
  }

  /** The code units of a string literal whose characters all lie in the
      Basic Multilingual Plane (each such character is one code unit). */
  function Units(s: string): (r: JsString)
    requires IsBmp(s)
    ensures |r| == |s|
    ensures forall i | 0 <= i < |s| :: r[i] == s[i] as int
  {
    seq(|s|, i requires 0 <= i < |s| => s[i] as int)
  }

  /** The characters matched by `\s` and removed by `trim`: ECMAScript's
      WhiteSpace (TAB, VT, FF, ZWNBSP and the Unicode category Zs) and
      LineTerminator (LF, CR, LS, PS). */
  predicate IsWhitespace(u: CodeUnit) {
    u == 0x09 || u == 0x0A || u == 0x0B || u == 0x0C || u == 0x0D ||
    u == 0x20 || u == 0xA0 || u == 0x1680 || (0x2000 <= u <= 0x200A) ||
    u == 0x2028 || u == 0x2029 || u == 0x202F || u == 0x205F ||
    u == 0x3000 || u == 0xFEFF
  }

  predicate AllWhitespace(s: JsString) {
    forall i | 0 <= i < |s| :: IsWhitespace(s[i])
  }

  /** `w` occurs in `s` starting at index `k`. */
  predicate OccursAt(s: JsString, k: int, w: JsString) {
    0 <= k && k + |w| <= |s| && s[k..k + |w|] == w
  }

  predicate Contains(s: JsString, w: JsString) {
    exists k | 0 <= k <= |s| - |w| :: OccursAt(s, k, w)
  }

  /** The first index at or after `from` where `w` occurs in `s`. */
  function IndexOf(s: JsString, w: JsString, from: nat): (r: Option<nat>)
    ensures r.Some? ==> from <= r.value && OccursAt(s, r.value, w)
    ensures r.Some? ==> forall k | from <= k < r.value :: !OccursAt(s, k, w)
    ensures r.None? ==> forall k | from <= k :: !OccursAt(s, k, w)
    decreases |s| - from
  {
    if from + |w| > |s| then None
    else if OccursAt(s, from, w) then Some(from)
    else IndexOf(s, w, from + 1)
  }

  /** The end of the run of whitespace that starts at `from`. */
  function WhitespaceRunEnd(s: JsString, from: nat): (n: nat)
    requires from <= |s|
    ensures from <= n <= |s|
    ensures forall i | from <= i < n :: IsWhitespace(s[i])
    ensures n == |s| || !IsWhitespace(s[n])
    decreases |s| - from
  {
    if from < |s| && IsWhitespace(s[from]) then WhitespaceRunEnd(s, from + 1) else from
  }

  /** The start of the run of whitespace that ends at `until`. */
  function WhitespaceRunStart(s: JsString, until: nat): (n: nat)
    requires until <= |s|
    ensures n <= until
    ensures forall i | n <= i < until :: IsWhitespace(s[i])
    ensures n == 0 || !IsWhitespace(s[n - 1])
    decreases until
  {
    if until > 0 && IsWhitespace(s[until - 1]) then WhitespaceRunStart(s, until - 1) else until
  }

  /** A run of whitespace ends at the first unit that is not whitespace. */
  lemma RunEndIs(s: JsString, from: nat, k: nat)
    requires from <= k <= |s|
    requires forall i | from <= i < k :: IsWhitespace(s[i])
    requires k == |s| || !IsWhitespace(s[k])
    ensures WhitespaceRunEnd(s, from) == k
  {
  }

  /** `String.prototype.trimStart`: drops the leading whitespace. */
  function TrimStart(s: JsString): (r: JsString)
    ensures |r| <= |s| && r == s[|s| - |r|..]
    ensures AllWhitespace(s[..|s| - |r|])
    ensures r == [] || !IsWhitespace(r[0])
    ensures r == [] <==> AllWhitespace(s)
  {
    var n := WhitespaceRunEnd(s, 0);
    assert forall i | 0 <= i < n :: s[..n][i] == s[i];
    s[n..]
  }

  /** Occurrences in a suffix are occurrences in the whole, shifted. */
  lemma {:induction false} OccursInSuffix(s: JsString, d: nat, k: nat, w: JsString)
    requires d <= |s|
    ensures OccursAt(s[d..], k, w) <==> OccursAt(s, k + d, w)
  {
    if k + |w| <= |s| - d {
      assert s[d..][k..k + |w|] == s[k + d..k + d + |w|];
    }
  }

  /** A leading run of whitespace is exactly what `trimStart` removes. */
  lemma {:induction false} TrimStartRun(w: JsString, b: JsString)
    requires AllWhitespace(w)
    requires b == [] || !IsWhitespace(b[0])
    ensures TrimStart(w + b) == b
  {
    var s := w + b;
    assert forall i | 0 <= i < |w| :: s[i] == w[i];
    RunEndIs(s, 0, |w|);
    assert s[|w|..] == b;
  }

  /** Once `x` has a non-whitespace unit, what follows `x` is untouched. */
  lemma {:induction false} TrimStartConcat(x: JsString, y: JsString)
    requires !AllWhitespace(x)
    ensures TrimStart(x + y) == TrimStart(x) + y
  {
    var n := WhitespaceRunEnd(x, 0);
    assert n < |x|;
    var s := x + y;
    assert forall i | 0 <= i <= n :: s[i] == x[i];
    RunEndIs(s, 0, n);
    assert s[n..] == x[n..] + y;
  }

  /** `trimStart` keeps the last unit of a text that is not all whitespace. */
  lemma TrimStartKeepsLast(x: JsString)
    requires !AllWhitespace(x)
    ensures TrimStart(x) != [] && TrimStart(x)[|TrimStart(x)| - 1] == x[|x| - 1]
  {
    var r := TrimStart(x);
    assert r == x[|x| - |r|..];
  }

  /** `String.prototype.trimEnd`: drops the trailing whitespace. */
  function TrimEnd(s: JsString): (r: JsString)
    ensures |r| <= |s| && r == s[..|r|]
    ensures AllWhitespace(s[|r|..])
    ensures r == [] || !IsWhitespace(r[|r| - 1])
    ensures r == [] <==> AllWhitespace(s)
  {
    var n := WhitespaceRunStart(s, |s|);
    assert forall i | n <= i < |s| :: s[n..][i - n] == s[i];
    s[..n]
  }

  /** `String.prototype.trim`. */
  function Trim(s: JsString): (r: JsString)
    ensures exists i | 0 <= i <= |s| - |r| ::
              OccursAt(s, i, r) && AllWhitespace(s[..i]) && AllWhitespace(s[i + |r|..])
    ensures r == [] || (!IsWhitespace(r[0]) && !IsWhitespace(r[|r| - 1]))
    ensures r == [] <==> AllWhitespace(s)
  {
    TrimParts(s);
    TrimEnd(TrimStart(s))
  }

  lemma {:induction false} TrimParts(s: JsString)
    ensures OccursAt(s, |s| - |TrimStart(s)|, TrimEnd(TrimStart(s)))
    ensures AllWhitespace(s[..|s| - |TrimStart(s)|])
    ensures AllWhitespace(s[|s| - |TrimStart(s)| + |TrimEnd(TrimStart(s))|..])
    ensures TrimEnd(TrimStart(s)) == [] || TrimEnd(TrimStart(s))[0] == TrimStart(s)[0]
    ensures TrimEnd(TrimStart(s)) == [] <==> AllWhitespace(s)
  {
    var t := TrimStart(s);
    var r := TrimEnd(t);
    var i := |s| - |t|;
    assert t == s[i..];
    assert r == t[..|r|];
    assert s[i..i + |r|] == r;
    assert s[i + |r|..] == t[|r|..];
    assert AllWhitespace(t) <==> t == [] by {
      if t != [] {
        assert !IsWhitespace(t[0]);
      }
    }
  }

  /** No `<` is immediately followed by `/`: the text cannot contain an end
      tag of any element, and in particular cannot close a script element. */
  predicate NoEndTagOpen(s: JsString) {
    forall i | 0 <= i < |s| - 1 :: !(s[i] == Lt && s[i + 1] == Slash)
  }

  lemma NoEndTagOpenConcat(a: JsString, b: JsString)
    requires NoEndTagOpen(a) && NoEndTagOpen(b)
    requires a == [] || b == [] || a[|a| - 1] != Lt || b[0] != Slash
    ensures NoEndTagOpen(a + b)
  {
    forall i | 0 <= i < |a + b| - 1
      ensures !((a + b)[i] == Lt && (a + b)[i + 1] == Slash)
    {
      if i < |a| - 1 {
        assert (a + b)[i] == a[i] && (a + b)[i + 1] == a[i + 1];
      } else if i >= |a| {
        assert (a + b)[i] == b[i - |a|] && (a + b)[i + 1] == b[i - |a| + 1];
      }
    }
  }

  /** Text that an HTML tokenizer reads as plain script data from end to
      end: no `<` is followed by `/` (the start of an end tag) or by `!` (the
      start of `<!--`, which would enter the escaped script states where a
      `</script>` no longer ends the element). */
  predicate ScriptDataSafe(s: JsString) {
    forall i | 0 <= i < |s| - 1 :: s[i] == Lt ==> s[i + 1] != Slash && s[i + 1] != Bang
  }

  lemma ScriptDataSafeHasNoEndTagOpen(s: JsString)
    requires ScriptDataSafe(s)
    ensures NoEndTagOpen(s)
  {
  }

  lemma ScriptDataSafeConcat(a: JsString, b: JsString)
    requires ScriptDataSafe(a) && ScriptDataSafe(b)
    requires a == [] || b == [] || a[|a| - 1] != Lt || (b[0] != Slash && b[0] != Bang)
    ensures ScriptDataSafe(a + b)
  {
    forall i | 0 <= i < |a + b| - 1 && (a + b)[i] == Lt
      ensures (a + b)[i + 1] != Slash && (a + b)[i + 1] != Bang
    {
      if i < |a| - 1 {
        assert (a + b)[i] == a[i] && (a + b)[i + 1] == a[i + 1];
      } else if i >= |a| {
        assert (a + b)[i] == b[i - |a|] && (a + b)[i + 1] == b[i - |a| + 1];
      }
    }
  }

  /** Text without `</` contains no `w` that starts with `</`. */
  lemma NoEndTagOpenExcludes(s: JsString, w: JsString)
    requires NoEndTagOpen(s)
    requires |w| >= 2 && w[0] == Lt && w[1] == Slash
    ensures !Contains(s, w)
  {
  }

  /** Where the three parts of a concatenation sit in it. */
  lemma ThreeParts(p: JsString, m: JsString, q: JsString)
    ensures OccursAt(p + m + q, 0, p)
    ensures (p + m + q)[|p|..|p| + |m|] == m
    ensures OccursAt(p + m + q, |p| + |m|, q)
  {
    var s := p + m + q;
    assert s[..|p|] == p;
    assert s[|p| + |m|..|p| + |m| + |q|] == q;
  }

  /** A slice inside the left part of a concatenation. */
  lemma SliceLeft(h: JsString, u: JsString, lo: nat, hi: nat)
    requires lo <= hi <= |h|
    ensures (h + u)[lo..hi] == h[lo..hi]
  {
  }

  /** The right part of a concatenation, as a slice of it. */
  lemma SliceRight(h: JsString, u: JsString)
    ensures (h + u)[|h|..|h| + |u|] == u
  {
  }

  /** After `p`, the first `x` in `p + m + q` is where `q` begins, when `m`
      holds none and `q` starts with one. */
  lemma FirstUnitAt(p: JsString, m: JsString, q: JsString, x: CodeUnit)
    requires forall i | 0 <= i < |m| :: m[i] != x
    requires q != [] && q[0] == x
    ensures IndexOf(p + m + q, [x], |p|) == Some(|p| + |m|)
  {
    var s := p + m + q;
    var e := |p| + |m|;
    assert s[e] == x;
    UnitOccursAt(s, e, x);
    forall k | |p| <= k < e ensures !OccursAt(s, k, [x]) {
      assert s[k] == m[k - |p|];
      UnitOccursAt(s, k, x);
    }
    FirstAt(s, [x], |p|, e);
  }

  lemma UnitOccursAt(s: JsString, k: nat, x: CodeUnit)
    requires k < |s|
    ensures OccursAt(s, k, [x]) <==> s[k] == x
  {
    assert s[k..k + 1] == [s[k]];
  }

  /** The start of an end tag, `</`. */
  const EndTagOpen: JsString := [Lt, Slash]

  /** `IndexOf` finds an occurrence exactly when none comes before it. */
  lemma FirstAt(s: JsString, w: JsString, from: nat, j: nat)
    requires from <= j && OccursAt(s, j, w)
    requires forall k | from <= k < j :: !OccursAt(s, k, w)
    ensures IndexOf(s, w, from) == Some(j)
  {
  }

  lemma EndTagOpenAt(s: JsString, k: nat)
    requires k + 2 <= |s|
    ensures OccursAt(s, k, EndTagOpen) <==> s[k] == Lt && s[k + 1] == Slash
  {
    assert s[k..k + 2] == [s[k], s[k + 1]];
  }

  /** After `p`, the first `</` in `p + m + q` is where `q` begins, when `m`
      holds none and `q` starts with one. */
  lemma FirstEndTagOpen(p: JsString, m: JsString, q: JsString)
    requires NoEndTagOpen(m) && (m == [] || m[|m| - 1] != Lt)
    requires |q| >= 2 && q[0] == Lt && q[1] == Slash
    ensures IndexOf(p + m + q, EndTagOpen, |p|) == Some(|p| + |m|)
  {
    var s := p + m + q;
    var e := |p| + |m|;
    assert s[e] == Lt && s[e + 1] == Slash;
    assert OccursAt(s, e, EndTagOpen) by { assert s[e..e + 2] == EndTagOpen; }
    forall k | |p| <= k < e ensures !OccursAt(s, k, EndTagOpen) {
      EndTagOpenAt(s, k);
      assert s[k] == m[k - |p|];
      if k + 1 < e {
        assert s[k + 1] == m[k + 1 - |p|];
      }
    }
    FirstAt(s, EndTagOpen, |p|, e);
  }
}
