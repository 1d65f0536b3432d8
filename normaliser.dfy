/** The cleaning step applied to the pasted markup before it is encoded:
    comment removal, then whitespace collapse, then trim. */
module Normaliser {
  import opened JsText

  const CommentOpen: JsString := Units("<!--")
  const CommentClose: JsString := Units("-->")

  /** `s.replace(/<!--[\s\S]*?-->/g, '')`, as one scan from left to right: a
      `<!--` is removed together with everything up to the first `-->` that
      starts after it, and the scan resumes behind that `-->`; a `<!--` with
      no `-->` after it is kept like any other text. */
  function StripComments(s: JsString): (r: JsString)
    ensures |r| <= |s|
    decreases |s|
  {
    if s == [] then []
    else if OccursAt(s, 0, CommentOpen) then
      match IndexOf(s, CommentClose, |CommentOpen|)
      case Some(j) => StripComments(s[j + |CommentClose|..])
      case None => [s[0]] + StripComments(s[1..])
    else [s[0]] + StripComments(s[1..])
  }

  predicate NoAdjacentWhitespace(s: JsString) {
    forall i | 0 <= i < |s| - 1 :: !(IsWhitespace(s[i]) && IsWhitespace(s[i + 1]))
  }

  predicate WhitespaceIsSpace(s: JsString) {
    forall i | 0 <= i < |s| :: IsWhitespace(s[i]) ==> s[i] == Space
  }

  predicate NoWhitespace(s: JsString) {
    forall i | 0 <= i < |s| :: !IsWhitespace(s[i])
  }

  /** `s.replace(/\s+/g, ' ')`: every maximal run of whitespace becomes one
      space. */
  function CollapseWhitespace(s: JsString): (r: JsString)
    ensures |r| <= |s|
    ensures r == [] <==> s == []
    ensures r != [] ==> (IsWhitespace(r[0]) <==> IsWhitespace(s[0]))
    decreases |s|
  {
    if s == [] then []
    else if IsWhitespace(s[0]) then [Space] + CollapseWhitespace(TrimStart(s[1..]))
    else [s[0]] + CollapseWhitespace(s[1..])
  }

  /** The cleaned text: `rawHtml.replace(...).replace(...).trim()`. */
  function Normalise(rawHtml: JsString): (cleanedHtml: JsString)
    ensures |cleanedHtml| <= |rawHtml|
  {
    Trim(CollapseWhitespace(StripComments(rawHtml)))
  }

  // ---------------------------------------------------------------------
  // Comment removal

  /** No `-->` starts at or after the fourth unit following a `<!--`, so the
      regex finds no comment to delete. */
  predicate NoCompleteComment(s: JsString) {
    forall k, j | 0 <= k < |s| && 0 <= j < |s| && OccursAt(s, k, CommentOpen) && OccursAt(s, j, CommentClose) ::
      j < k + 4
  }

  /** Text in which no comment can be completed comes out unchanged. */
  lemma {:induction false} StripKeepsIncompleteComments(s: JsString)
    requires NoCompleteComment(s)
    ensures StripComments(s) == s
    decreases |s|
  {
    if s != [] {
      if OccursAt(s, 0, CommentOpen) {
        assert IndexOf(s, CommentClose, |CommentOpen|).None?;
      }
      forall k, j | OccursAt(s[1..], k, CommentOpen) && OccursAt(s[1..], j, CommentClose)
        ensures j < k + 4
      {
        OccursInSuffix(s, 1, k, CommentOpen);
        OccursInSuffix(s, 1, j, CommentClose);
      }
      StripKeepsIncompleteComments(s[1..]);
      assert s == [s[0]] + s[1..];
    }
  }

  /** A string with no `<!--` in it is left unchanged. */
  lemma NoOpenUnchanged(s: JsString)
    requires !Contains(s, CommentOpen)
    ensures StripComments(s) == s
  {
    StripKeepsIncompleteComments(s);
  }

  /** The front of `a + t` is not a `<!--` when `a` holds none and `t`
      starts with `<`. */
  lemma {:induction false} NoOpenAtFront(a: JsString, t: JsString)
    requires a != [] && !Contains(a, CommentOpen)
    requires t == [] || t[0] == Lt
    ensures !OccursAt(a + t, 0, CommentOpen)
  {
    if |a| >= 4 {
      assert (a + t)[0..4] == a[0..4];
      assert OccursAt(a, 0, CommentOpen) <==> OccursAt(a + t, 0, CommentOpen);
    } else if |a + t| >= 4 {
      assert (a + t)[|a|] == Lt != CommentOpen[|a|];
    }
  }

  /** A prefix free of `<!--`, followed by text starting with `<` (or by
      nothing), passes through unchanged. */
  lemma {:induction false} SkipCommentFreePrefix(a: JsString, t: JsString)
    requires !Contains(a, CommentOpen)
    requires t == [] || t[0] == Lt
    ensures StripComments(a + t) == a + StripComments(t)
    decreases |a|
  {
    if a == [] {
      assert a + t == t;
    } else {
      NoOpenAtFront(a, t);
      SkipStep(a, t);
      NoOpenInTail(a);
      SkipCommentFreePrefix(a[1..], t);
      ConsAssoc(a, StripComments(t));
    }
  }

  lemma SkipStep(a: JsString, t: JsString)
    requires a != [] && !OccursAt(a + t, 0, CommentOpen)
    ensures StripComments(a + t) == [a[0]] + StripComments(a[1..] + t)
  {
    var s := a + t;
    StripStep(s);
    assert s[1..] == a[1..] + t;
  }

  lemma ConsAssoc(a: JsString, r: JsString)
    requires a != []
    ensures [a[0]] + (a[1..] + r) == a + r
  {
  }

  lemma NoOpenInTail(a: JsString)
    requires a != [] && !Contains(a, CommentOpen)
    ensures !Contains(a[1..], CommentOpen)
  {
    forall k | 0 <= k <= |a[1..]| - |CommentOpen| ensures !OccursAt(a[1..], k, CommentOpen) {
      OccursInSuffix(a, 1, k, CommentOpen);
    }
  }

  lemma StripStep(s: JsString)
    requires s != [] && !OccursAt(s, 0, CommentOpen)
    ensures StripComments(s) == [s[0]] + StripComments(s[1..])
  {
  }

  /** A `<!--` with no `-->` starting after it is kept verbatim. */
  lemma {:induction false} UnterminatedOpenKept(a: JsString, b: JsString)
    requires !Contains(a, CommentOpen)
    requires OccursAt(b, 0, CommentOpen)
    requires forall j | j >= 4 :: !OccursAt(b, j, CommentClose)
    ensures StripComments(a + b) == a + b
  {
    assert b[0] == CommentOpen[0] == Lt;
    SkipCommentFreePrefix(a, b);
    StripKeepsIncompleteComments(b);
  }

  /** The first `-->` at or after `|CommentOpen|` in `CommentOpen + c +
      CommentClose + b` is the one after `c`, when `c` holds none. */
  lemma {:induction false} FirstClose(c: JsString, b: JsString)
    requires !Contains(c, CommentClose)
    ensures IndexOf(CommentOpen + c + CommentClose + b, CommentClose, 4) == Some(4 + |c|)
  {
    var s := CommentOpen + c + CommentClose + b;
    var e := 4 + |c|;
    assert forall i | 0 <= i < 3 :: s[e + i] == CommentClose[i];
    assert OccursAt(s, e, CommentClose) by { assert s[e..e + 3] == CommentClose; }
    forall k | 4 <= k < e ensures !OccursAt(s, k, CommentClose) {
      if k + 3 <= e {
        assert s[k..k + 3] == c[k - 4..k - 1];
        assert !OccursAt(c, k - 4, CommentClose);
      } else {
        assert s[k + 2] == CommentClose[k + 2 - e] != CommentClose[2];
        assert s[k..k + 3][2] == s[k + 2];
      }
    }
  }

  /** A comment at the front is removed up to and including its first `-->`. */
  lemma {:induction false} FrontCommentRemoved(c: JsString, b: JsString)
    requires !Contains(c, CommentClose)
    ensures StripComments(CommentOpen + c + CommentClose + b) == StripComments(b)
  {
    var s := CommentOpen + c + CommentClose + b;
    FirstClose(c, b);
    assert s[..4] == CommentOpen;
    assert s[4 + |c| + 3..] == b;
  }

  /** Each `<!--` is removed together with everything up to the first `-->`
      after it, whatever lies between (line breaks included). */
  lemma RemovesFirstComment(a: JsString, c: JsString, b: JsString)
    requires !Contains(a, CommentOpen)
    requires !Contains(c, CommentClose)
    ensures StripComments(a + CommentOpen + c + CommentClose + b) == a + StripComments(b)
  {
    var t := CommentOpen + c + CommentClose + b;
    assert a + CommentOpen + c + CommentClose + b == a + t;
    assert t[0] == Lt;
    SkipCommentFreePrefix(a, t);
    FrontCommentRemoved(c, b);
  }

  // ---------------------------------------------------------------------
  // Whitespace collapse

  /** Text without whitespace is left unchanged by the collapse. */
  lemma {:induction false} CollapseKeepsWhitespaceFree(s: JsString)
    requires NoWhitespace(s)
    ensures CollapseWhitespace(s) == s
    decreases |s|
  {
    if s != [] {
      assert NoWhitespace(s[1..]) by {
        forall i | 0 <= i < |s| - 1 ensures !IsWhitespace(s[1..][i]) {
          assert s[1..][i] == s[i + 1];
        }
      }
      CollapseKeepsWhitespaceFree(s[1..]);
      assert s == [s[0]] + s[1..];
    }
  }

  /** A maximal run of whitespace, wherever it sits, becomes exactly one
      space, and the text on either side is collapsed on its own. */
  lemma {:induction false} CollapseRun(a: JsString, w: JsString, b: JsString)
    requires a == [] || !IsWhitespace(a[|a| - 1])
    requires w != [] && AllWhitespace(w)
    requires b == [] || !IsWhitespace(b[0])
    ensures CollapseWhitespace(a + w + b) == CollapseWhitespace(a) + [Space] + CollapseWhitespace(b)
    decreases |a|, 1
  {
    if a == [] {
      var s := a + w + b;
      assert s == w + b;
      assert s[1..] == w[1..] + b;
      TrimStartRun(w[1..], b);
      CollapseSpaceStep(s);
      assert CollapseWhitespace(s) == [Space] + CollapseWhitespace(b);
      assert CollapseWhitespace(a) == [];
      assert [Space] + CollapseWhitespace(b) == [] + [Space] + CollapseWhitespace(b);
    } else if !IsWhitespace(a[0]) {
      CollapseRunAfterText(a, w, b);
    } else {
      CollapseRunAfterSpace(a, w, b);
    }
  }

  lemma {:induction false} CollapseRunAfterText(a: JsString, w: JsString, b: JsString)
    requires a != [] && !IsWhitespace(a[0]) && !IsWhitespace(a[|a| - 1])
    requires w != [] && AllWhitespace(w)
    requires b == [] || !IsWhitespace(b[0])
    ensures CollapseWhitespace(a + w + b) == CollapseWhitespace(a) + [Space] + CollapseWhitespace(b)
    decreases |a|, 0
  {
    var s := a + w + b;
    assert s[1..] == a[1..] + w + b;
    CollapseRun(a[1..], w, b);
    CollapseOtherStep(s);
    CollapseOtherStep(a);
    var ca, cb := CollapseWhitespace(a[1..]), CollapseWhitespace(b);
    assert CollapseWhitespace(s) == [a[0]] + (ca + [Space] + cb);
    assert CollapseWhitespace(a) == [a[0]] + ca;
    SpliceAssoc([a[0]], ca, cb);
  }

  lemma {:induction false} CollapseRunAfterSpace(a: JsString, w: JsString, b: JsString)
    requires a != [] && IsWhitespace(a[0]) && !IsWhitespace(a[|a| - 1])
    requires w != [] && AllWhitespace(w)
    requires b == [] || !IsWhitespace(b[0])
    ensures CollapseWhitespace(a + w + b) == CollapseWhitespace(a) + [Space] + CollapseWhitespace(b)
    decreases |a|, 0
  {
    var s := a + w + b;
    var a' := TrimStart(a[1..]);
    SpaceHeadSplit(a, w + b);
    assert s == a + (w + b);
    assert a' + (w + b) == a' + w + b;
    CollapseRun(a', w, b);
    CollapseSpaceStep(s);
    CollapseSpaceStep(a);
    SpliceAssoc([Space], CollapseWhitespace(a'), CollapseWhitespace(b));
  }

  /** Behind a leading whitespace unit of `a`, `trimStart` stops inside `a`
      when `a` does not end in whitespace. */
  lemma SpaceHeadSplit(a: JsString, y: JsString)
    requires a != [] && IsWhitespace(a[0]) && !IsWhitespace(a[|a| - 1])
    ensures TrimStart((a + y)[1..]) == TrimStart(a[1..]) + y
    ensures TrimStart(a[1..]) != [] && !IsWhitespace(TrimStart(a[1..])[|TrimStart(a[1..])| - 1])
  {
    var x := a[1..];
    assert (a + y)[1..] == x + y;
    assert |a| >= 2;
    assert x[|x| - 1] == a[|a| - 1];
    TrimStartConcat(x, y);
    TrimStartKeepsLast(x);
  }

  lemma SpliceAssoc(x: JsString, y: JsString, z: JsString)
    ensures x + (y + [Space] + z) == (x + y) + [Space] + z
  {
  }

  lemma CollapseSpaceStep(s: JsString)
    requires s != [] && IsWhitespace(s[0])
    ensures CollapseWhitespace(s) == [Space] + CollapseWhitespace(TrimStart(s[1..]))
  {
  }

  lemma CollapseOtherStep(s: JsString)
    requires s != [] && !IsWhitespace(s[0])
    ensures CollapseWhitespace(s) == [s[0]] + CollapseWhitespace(s[1..])
  {
  }

  lemma ConsShape(x: CodeUnit, r: JsString)
    requires NoAdjacentWhitespace(r) && WhitespaceIsSpace(r)
    requires IsWhitespace(x) ==> x == Space && (r == [] || !IsWhitespace(r[0]))
    ensures NoAdjacentWhitespace([x] + r) && WhitespaceIsSpace([x] + r)
  {
    var s := [x] + r;
    forall i | 1 <= i < |s| ensures s[i] == r[i - 1] { }
  }

  /** The collapse leaves no two whitespace units side by side, and every
      whitespace unit it leaves is a plain space. */
  lemma {:induction false} CollapseNormalForm(s: JsString)
    ensures NoAdjacentWhitespace(CollapseWhitespace(s))
    ensures WhitespaceIsSpace(CollapseWhitespace(s))
    decreases |s|
  {
    if s == [] {
    } else if IsWhitespace(s[0]) {
      var t := TrimStart(s[1..]);
      CollapseNormalForm(t);
      ConsShape(Space, CollapseWhitespace(t));
    } else {
      CollapseNormalForm(s[1..]);
      ConsShape(s[0], CollapseWhitespace(s[1..]));
    }
  }

  lemma InfixShape(c: JsString, i: nat, r: JsString)
    requires OccursAt(c, i, r)
    requires NoAdjacentWhitespace(c) && WhitespaceIsSpace(c)
    ensures NoAdjacentWhitespace(r) && WhitespaceIsSpace(r)
  {
    assert forall k | 0 <= k < |r| :: r[k] == c[i + k];
  }

  // ---------------------------------------------------------------------
  // Whole normalisation

  /** The cleaned text has no leading or trailing whitespace, no two
      whitespace units in a row, and no whitespace other than plain spaces. */
  lemma NormaliseShape(rawHtml: JsString)
    ensures NoAdjacentWhitespace(Normalise(rawHtml)) && WhitespaceIsSpace(Normalise(rawHtml))
    ensures Normalise(rawHtml) == [] ||
            (!IsWhitespace(Normalise(rawHtml)[0]) && !IsWhitespace(Normalise(rawHtml)[|Normalise(rawHtml)| - 1]))
  {
    var c := CollapseWhitespace(StripComments(rawHtml));
    CollapseNormalForm(StripComments(rawHtml));
    TrimParts(c);
    InfixShape(c, |c| - |TrimStart(c)|, Trim(c));
  }

  /** When comment removal leaves no whitespace, collapse and trim change
      nothing further. */
  lemma {:induction false} NormaliseWithoutWhitespace(s: JsString)
    requires NoWhitespace(StripComments(s))
    ensures Normalise(s) == StripComments(s)
  {
    var c := StripComments(s);
    CollapseKeepsWhitespaceFree(c);
    if c != [] {
      assert TrimStart(c) == c;
      assert TrimEnd(c) == c;
    }
  }

  /** A comment spanning a line break is removed: `a<!--x\ny-->b` becomes `ab`. */
  lemma MultiLineCommentExample()
    ensures StripComments(Units("a<!--x\ny-->b")) == Units("ab")
  {
    var a, c, b := Units("a"), Units("x\ny"), Units("b");
    assert Units("a<!--x\ny-->b") == a + CommentOpen + c + CommentClose + b;
    RemovesFirstComment(a, c, b);
    NoOpenUnchanged(b);
  }

  /** Text without `<` holds no `<!--`. */
  lemma NoLtNoOpen(s: JsString)
    requires forall i | 0 <= i < |s| :: s[i] != Lt
    ensures !Contains(s, CommentOpen)
  {
    forall k | 0 <= k <= |s| - 4 ensures !OccursAt(s, k, CommentOpen) {
      assert s[k..k + 4][0] == s[k];
    }
  }

  lemma NestedCommentParts()
    ensures Units("<!<!--x-->--y-->") == Units("<!") + CommentOpen + Units("x") + CommentClose + Units("--y-->")
    ensures !Contains(Units("x"), CommentClose)
    ensures forall i | 0 <= i < |Units("--y-->")| :: Units("--y-->")[i] != Lt
  {
  }

  lemma NestedCommentStrip()
    ensures StripComments(Units("<!<!--x-->--y-->")) == Units("<!") + Units("--y-->")
  {
    var a, c, b := Units("<!"), Units("x"), Units("--y-->");
    NestedCommentParts();
    assert !Contains(a, CommentOpen);
    RemovesFirstComment(a, c, b);
    NoLtNoOpen(b);
    NoOpenUnchanged(b);
  }

  lemma JoinedComment()
    ensures Units("<!") + Units("--y-->") == Units("<!--y-->")
  {
  }

  lemma NoWhitespaceInJoinedComment()
    ensures NoWhitespace(Units("<!--y-->"))
  {
  }

  /** Removing the inner comment of `<!<!--x-->--y-->` leaves `<!--y-->`. */
  lemma NotIdempotentFirstPass()
    ensures Normalise(Units("<!<!--x-->--y-->")) == Units("<!--y-->")
  {
    var y := Units("<!--y-->");
    NestedCommentStrip();
    JoinedComment();
    NoWhitespaceInJoinedComment();
    NormaliseWithoutWhitespace(Units("<!<!--x-->--y-->"));
  }

  /** `<!--y-->` is a complete comment and normalises to nothing. */
  lemma NotIdempotentSecondPass()
    ensures Normalise(Units("<!--y-->")) == []
  {
    var y := Units("y");
    assert Units("<!--y-->") == [] + CommentOpen + y + CommentClose + [];
    RemovesFirstComment([], y, []);
  }

  /** Normalisation is not idempotent: removing one comment can join the text
      around it into a new one, which a second pass would remove. */
  lemma NotIdempotent()
    ensures Normalise(Units("<!<!--x-->--y-->")) == Units("<!--y-->")
    ensures Normalise(Normalise(Units("<!<!--x-->--y-->"))) == []
  {
    NotIdempotentFirstPass();
    NotIdempotentSecondPass();
  }
}
