/**
 * The export step's filename sanitiser: every character outside `[\w\-.]`
 * becomes `_`, runs of `_` shrink to one, leading and trailing `_` are
 * stripped, and an empty result falls back to "workflow".
 */
module Filenames {
  import opened Text

  /** `\w` over ASCII: letters, digits and underscore. */
  predicate IsWordChar(c: char) {
    ('a' <= c <= 'z') || ('A' <= c <= 'Z') || ('0' <= c <= '9') || c == '_'
  }

  /** Characters the sanitiser keeps as they are: `[\w\-.]`. */
  predicate IsSafe(c: char) {
    IsWordChar(c) || c == '-' || c == '.'
  }

  predicate IsUnderscore(c: char) {
    c == '_'
  }

  const Fallback: string := "workflow"

  ghost predicate AllSafe(s: string) {
    forall i :: 0 <= i < |s| ==> IsSafe(s[i])
  }

  ghost predicate NoDoubleUnderscore(s: string) {
    forall i :: 0 <= i < |s| - 1 ==> !(s[i] == '_' && s[i + 1] == '_')
  }

  /** The shape every sanitised name has. */
  ghost predicate IsSanitized(s: string) {
    && |s| > 0
    && AllSafe(s)
    && NoDoubleUnderscore(s)
    && s[0] != '_'
    && s[|s| - 1] != '_'
  }

  /** The characters that carry a name's content: safe and not `_`, in order. */
  function Kept(s: string): (r: string)
    ensures |r| <= |s|
  {
    if s == [] then []
    else (if IsSafe(s[0]) && s[0] != '_' then [s[0]] else []) + Kept(s[1..])
  }

  /** Stage 1: `re.sub(r"[^\w\-.]", "_", name)`. */
  function ReplaceUnsafe(s: string): (r: string)
    ensures |r| == |s| && AllSafe(r)
    ensures forall i :: 0 <= i < |s| && IsSafe(s[i]) ==> r[i] == s[i]
    ensures forall i :: 0 <= i < |s| && !IsSafe(s[i]) ==> r[i] == '_'
  {
    seq(|s|, i requires 0 <= i < |s| => if IsSafe(s[i]) then s[i] else '_')
  }

  /** Stage 2: `re.sub(r"_+", "_", safe)`. */
  function Collapse(s: string): (r: string)
    decreases |s|
  {
    if |s| < 2 then s
    else if s[0] == '_' && s[1] == '_' then Collapse(s[1..])
    else [s[0]] + Collapse(s[1..])
  }

  /** `_sanitize_filename`. */
  function SanitizeFilename(name: string): (r: string)
    ensures IsSanitized(r)
    ensures forall i :: 0 <= i < |r| ==> r[i] != '/'
  {
    var stripped := StripBy(Collapse(ReplaceUnsafe(name)), IsUnderscore);
    StrippedShape(name);
    FallbackShape();
    var r := if stripped == [] then Fallback else stripped;
    SanitizedHasNoSlash(r);
    r
  }

  /** No safe character is `=`. */
  lemma SafeHasNoEquals(s: string)
    requires AllSafe(s)
    ensures '=' !in s
  {
    forall i | 0 <= i < |s|
      ensures s[i] != '='
    {
      assert IsSafe(s[i]);
    }
  }

  /** No safe character is a path separator. */
  lemma SanitizedHasNoSlash(s: string)
    requires IsSanitized(s)
    ensures forall i :: 0 <= i < |s| ==> s[i] != '/'
  {
    forall i | 0 <= i < |s|
      ensures s[i] != '/'
    {
      assert IsSafe(s[i]);
    }
  }

  lemma FallbackShape()
    ensures IsSanitized(Fallback)
  {
    assert Fallback == ['w', 'o', 'r', 'k', 'f', 'l', 'o', 'w'];
  }

  /** After the three rewrite stages a non-empty name has the sanitised shape. */
  lemma StrippedShape(name: string)
    ensures var r := StripBy(Collapse(ReplaceUnsafe(name)), IsUnderscore);
      r != [] ==> IsSanitized(r)
  {
    CollapseShape(ReplaceUnsafe(name));
    StripKeepsShape(Collapse(ReplaceUnsafe(name)));
  }

  /** Stripping `_` from both ends of a safe name without `__` gives the sanitised shape. */
  lemma StripKeepsShape(s: string)
    requires AllSafe(s) && NoDoubleUnderscore(s)
    ensures var r := StripBy(s, IsUnderscore);
      r != [] ==> IsSanitized(r)
  {
    var a := StripParts(s, IsUnderscore);
    SliceShape(s, a, |StripBy(s, IsUnderscore)|);
  }

  /** Collapsing keeps the characters, removes every doubled `_` and keeps both end characters. */
  lemma CollapseShape(s: string)
    ensures |Collapse(s)| <= |s|
    ensures |s| > 0 ==> (|Collapse(s)| > 0 && Collapse(s)[0] == s[0]
                         && Collapse(s)[|Collapse(s)| - 1] == s[|s| - 1])
    ensures AllSafe(s) ==> AllSafe(Collapse(s))
    ensures NoDoubleUnderscore(Collapse(s))
    ensures Kept(Collapse(s)) == Kept(s)
  {
    CollapseEnds(s);
    CollapseLeavesNoDouble(s);
    CollapseKept(s);
  }

  lemma {:induction false} CollapseEnds(s: string)
    ensures |Collapse(s)| <= |s|
    ensures |s| > 0 ==> (|Collapse(s)| > 0 && Collapse(s)[0] == s[0]
                         && Collapse(s)[|Collapse(s)| - 1] == s[|s| - 1])
    ensures AllSafe(s) ==> AllSafe(Collapse(s))
    decreases |s|
  {
    if |s| >= 2 {
      CollapseEnds(s[1..]);
      if !(s[0] == '_' && s[1] == '_') {
        assert Collapse(s) == [s[0]] + Collapse(s[1..]);
      }
    }
  }

  lemma {:induction false} CollapseLeavesNoDouble(s: string)
    ensures NoDoubleUnderscore(Collapse(s))
    decreases |s|
  {
    if |s| >= 2 {
      var t := Collapse(s[1..]);
      CollapseLeavesNoDouble(s[1..]);
      CollapseEnds(s[1..]);
      if !(s[0] == '_' && s[1] == '_') {
        assert Collapse(s) == [s[0]] + t;
        forall i | 0 <= i < |[s[0]] + t| - 1
          ensures !(([s[0]] + t)[i] == '_' && ([s[0]] + t)[i + 1] == '_')
        {
          if i > 0 {
            assert ([s[0]] + t)[i] == t[i - 1];
          }
        }
      }
    }
  }

  lemma {:induction false} CollapseKept(s: string)
    ensures Kept(Collapse(s)) == Kept(s)
    decreases |s|
  {
    if |s| >= 2 {
      var t := Collapse(s[1..]);
      CollapseKept(s[1..]);
      if s[0] == '_' && s[1] == '_' {
        assert Kept(s) == Kept(s[1..]);
      } else {
        assert Collapse(s) == [s[0]] + t;
        assert ([s[0]] + t)[1..] == t;
        assert Kept([s[0]] + t) == (if IsSafe(s[0]) && s[0] != '_' then [s[0]] else []) + Kept(t);
      }
    }
  }

  /** A contiguous slice keeps the safe-character and no-`__` properties. */
  lemma SliceShape(s: string, a: nat, n: nat)
    requires a + n <= |s|
    ensures AllSafe(s) ==> AllSafe(s[a..a + n])
    ensures NoDoubleUnderscore(s) ==> NoDoubleUnderscore(s[a..a + n])
  {
    var t := s[a..a + n];
    if NoDoubleUnderscore(s) {
      forall i | 0 <= i < n - 1
        ensures !(t[i] == '_' && t[i + 1] == '_')
      {
        assert t[i] == s[a + i] && t[i + 1] == s[a + i + 1];
      }
    }
  }

  /** `Kept` distributes over concatenation. */
  lemma {:induction false} KeptConcat(x: string, y: string)
    ensures Kept(x + y) == Kept(x) + Kept(y)
    decreases |x|
  {
    if x != [] {
      var head := if IsSafe(x[0]) && x[0] != '_' then [x[0]] else [];
      assert (x + y)[0] == x[0];
      assert (x + y)[1..] == x[1..] + y;
      KeptConcat(x[1..], y);
      calc {
        Kept(x + y);
        head + Kept(x[1..] + y);
        head + (Kept(x[1..]) + Kept(y));
        (head + Kept(x[1..])) + Kept(y);
        Kept(x) + Kept(y);
      }
    } else {
      assert x + y == y;
    }
  }

  /** A run made only of `_` has no content. */
  lemma {:induction false} KeptUnderscores(s: string)
    requires forall i :: 0 <= i < |s| ==> s[i] == '_'
    ensures Kept(s) == []
    decreases |s|
  {
    if s != [] {
      KeptUnderscores(s[1..]);
    }
  }

  /** Replacing unsafe characters by `_` loses no content. */
  lemma {:induction false} KeptReplaceUnsafe(s: string)
    ensures Kept(ReplaceUnsafe(s)) == Kept(s)
    decreases |s|
  {
    if s != [] {
      assert ReplaceUnsafe(s)[1..] == ReplaceUnsafe(s[1..]);
      KeptReplaceUnsafe(s[1..]);
    }
  }

  /** An all-safe string is all `_` exactly when it has no content. */
  lemma {:induction false} NoContentIsUnderscores(s: string)
    requires AllSafe(s)
    ensures Kept(s) == [] <==> forall i :: 0 <= i < |s| ==> s[i] == '_'
    decreases |s|
  {
    if s != [] {
      NoContentIsUnderscores(s[1..]);
      if s[0] == '_' {
        assert forall i :: 0 <= i < |s| ==> (s[i] == '_' <==> (i == 0 || s[1..][i - 1] == '_'));
      }
    }
  }

  /**
   * The content of a name survives sanitising: when the name has any safe,
   * non-underscore character, those characters are exactly the
   * non-underscore characters of the result, in order; when it has none,
   * the result is the fallback "workflow".
   */
  lemma SanitizeKeepsContent(name: string)
    ensures Kept(name) == [] ==> SanitizeFilename(name) == Fallback
    ensures Kept(name) != [] ==> Kept(SanitizeFilename(name)) == Kept(name)
  {
    var replaced := ReplaceUnsafe(name);
    var collapsed := Collapse(replaced);
    var stripped := StripBy(collapsed, IsUnderscore);
    KeptReplaceUnsafe(name);
    CollapseShape(replaced);
    KeptStrip(collapsed);
    assert Kept(stripped) == Kept(name);
    var a := StripParts(collapsed, IsUnderscore);
    SliceShape(collapsed, a, |stripped|);
    NoContentIsUnderscores(stripped);
  }

  /** Underscores on either side add no content. */
  lemma KeptAroundUnderscores(front: string, mid: string, back: string)
    requires forall i :: 0 <= i < |front| ==> front[i] == '_'
    requires forall i :: 0 <= i < |back| ==> back[i] == '_'
    ensures Kept(front + mid + back) == Kept(mid)
  {
    KeptConcat(front, mid);
    KeptConcat(front + mid, back);
    KeptUnderscores(front);
    KeptUnderscores(back);
  }

  /** Stripping `_` from both ends loses no content. */
  lemma KeptStrip(s: string)
    ensures Kept(StripBy(s, IsUnderscore)) == Kept(s)
  {
    var stripped := StripBy(s, IsUnderscore);
    var a := StripParts(s, IsUnderscore);
    var b := a + |stripped|;
    var front, back := s[..a], s[b..];
    assert forall i :: 0 <= i < |front| ==> front[i] == '_' by {
      forall i | 0 <= i < |front| ensures front[i] == '_' {
        assert front[i] == s[i] && IsUnderscore(s[i]);
      }
    }
    assert forall i :: 0 <= i < |back| ==> back[i] == '_' by {
      forall i | 0 <= i < |back| ensures back[i] == '_' {
        assert back[i] == s[b + i] && IsUnderscore(s[b + i]);
      }
    }
    SplitThree(s, a, b);
    KeptAroundUnderscores(front, stripped, back);
  }

  /** A name that already has the sanitised shape comes back unchanged. */
  lemma SanitizeFixesSanitized(s: string)
    requires IsSanitized(s)
    ensures SanitizeFilename(s) == s
  {
    assert ReplaceUnsafe(s) == s;
    CollapseNoDouble(s);
    assert DropLeading(s, IsUnderscore) == s;
    assert DropTrailing(s, IsUnderscore) == s;
  }

  /** Collapsing a string without `__` changes nothing. */
  lemma {:induction false} CollapseNoDouble(s: string)
    requires NoDoubleUnderscore(s)
    ensures Collapse(s) == s
    decreases |s|
  {
    if |s| >= 2 {
      assert !(s[0] == '_' && s[1] == '_');
      CollapseNoDouble(s[1..]);
      assert [s[0]] + s[1..] == s;
    }
  }

  /** `_sanitize_filename` is idempotent. */
  lemma SanitizeIdempotent(name: string)
    ensures SanitizeFilename(SanitizeFilename(name)) == SanitizeFilename(name)
  {
    SanitizeFixesSanitized(SanitizeFilename(name));
  }

  /** The sanitiser's fixed points are exactly the names of sanitised shape. */
  lemma SanitizeFixedPoints(s: string)
    ensures SanitizeFilename(s) == s <==> IsSanitized(s)
  {
    if IsSanitized(s) {
      SanitizeFixesSanitized(s);
    }
  }

  /** A run of one or more `_` collapses exactly as a single `_` does. */
  lemma {:induction false} CollapseRun(x: string, u: string, y: string)
    requires |u| > 0 && forall i :: 0 <= i < |u| ==> u[i] == '_'
    ensures Collapse(x + u + y) == Collapse(x + "_" + y)
    decreases |x| + |u|
  {
    if |x| == 0 {
      assert x + u + y == u + y;
      assert x + "_" + y == "_" + y;
      if |u| >= 2 {
        assert (u + y)[1..] == [] + u[1..] + y;
        CollapseRun([], u[1..], y);
      } else {
        assert u == "_";
      }
    } else {
      var s := x + u + y;
      var t := x + "_" + y;
      assert s[1..] == x[1..] + u + y;
      assert t[1..] == x[1..] + "_" + y;
      assert s[0] == t[0] && s[1] == t[1];
      CollapseRun(x[1..], u, y);
    }
  }

  /** Stage 1 works character by character, so it distributes over a three-part concatenation. */
  lemma ReplaceUnsafeConcat(x: string, u: string, y: string)
    ensures ReplaceUnsafe(x + u + y) == ReplaceUnsafe(x) + ReplaceUnsafe(u) + ReplaceUnsafe(y)
  {
    var l := ReplaceUnsafe(x + u + y);
    var r := ReplaceUnsafe(x) + ReplaceUnsafe(u) + ReplaceUnsafe(y);
    forall i | 0 <= i < |l|
      ensures l[i] == r[i]
    {
      if i < |x| {
        assert (x + u + y)[i] == x[i];
      } else if i < |x| + |u| {
        assert (x + u + y)[i] == u[i - |x|];
      } else {
        assert (x + u + y)[i] == y[i - |x| - |u|];
      }
    }
  }

  /**
   * A run of characters that are unsafe or `_` counts as a single `_`: the
   * name sanitises as if the run were one underscore. Inside the name that
   * leaves one `_`; at either end it disappears (`LeadingRunDropped`,
   * `TrailingRunDropped`).
   */
  lemma SanitizeRun(x: string, u: string, y: string)
    requires |u| > 0 && forall i :: 0 <= i < |u| ==> !IsSafe(u[i]) || u[i] == '_'
    ensures SanitizeFilename(x + u + y) == SanitizeFilename(x + "_" + y)
  {
    ReplaceUnsafeConcat(x, u, y);
    ReplaceUnsafeConcat(x, "_", y);
    assert ReplaceUnsafe("_") == "_";
    CollapseRun(ReplaceUnsafe(x), ReplaceUnsafe(u), ReplaceUnsafe(y));
  }

  /**
   * Doubling an inner underscore of a sanitised name is undone by sanitising:
   * `a__b` comes back as `a_b`, not as `ab`.
   */
  lemma SanitizeDoubledUnderscore(x: string, y: string)
    requires IsSanitized(x + "_" + y)
    ensures SanitizeFilename(x + "__" + y) == x + "_" + y
  {
    SanitizeRun(x, "__", y);
    SanitizeFixesSanitized(x + "_" + y);
  }

  /** Collapsing behind a leading `_`: it merges with a `_` that follows, and stays otherwise. */
  lemma CollapseConsUnderscore(s: string)
    ensures Collapse("_" + s)
      == if |s| > 0 && s[0] == '_' then Collapse(s) else "_" + Collapse(s)
  {
    if |s| > 0 {
      assert ("_" + s)[1..] == s;
    }
  }

  /** Collapsing before a trailing `_`: it merges with a `_` before it, and stays otherwise. */
  lemma {:induction false} CollapseSnocUnderscore(s: string)
    ensures Collapse(s + "_")
      == if |s| > 0 && s[|s| - 1] == '_' then Collapse(s) else Collapse(s) + "_"
    decreases |s|
  {
    if |s| == 1 {
      assert (s + "_")[1..] == "_";
    } else if |s| >= 2 {
      var t := s + "_";
      assert t[0] == s[0] && t[1] == s[1];
      assert t[1..] == s[1..] + "_";
      CollapseSnocUnderscore(s[1..]);
      if !(s[0] == '_' && s[1] == '_') {
        assert [s[0]] + (Collapse(s[1..]) + "_") == ([s[0]] + Collapse(s[1..])) + "_";
      }
    }
  }

  /** A single `_` in front of a name is dropped. */
  lemma LeadingUnderscoreDropped(y: string)
    ensures SanitizeFilename("_" + y) == SanitizeFilename(y)
  {
    var s := ReplaceUnsafe(y);
    assert ReplaceUnsafe("_" + y) == "_" + s;
    CollapseConsUnderscore(s);
    if !(|s| > 0 && s[0] == '_') {
      StripByCons('_', Collapse(s), IsUnderscore);
    }
  }

  /** A single `_` behind a name is dropped. */
  lemma TrailingUnderscoreDropped(y: string)
    ensures SanitizeFilename(y + "_") == SanitizeFilename(y)
  {
    var s := ReplaceUnsafe(y);
    assert ReplaceUnsafe(y + "_") == s + "_";
    CollapseSnocUnderscore(s);
    if !(|s| > 0 && s[|s| - 1] == '_') {
      StripBySnoc(Collapse(s), '_', IsUnderscore);
    }
  }

  /** A run of characters that are unsafe or `_` at the start of a name disappears. */
  lemma LeadingRunDropped(u: string, y: string)
    requires forall i :: 0 <= i < |u| ==> !IsSafe(u[i]) || u[i] == '_'
    ensures SanitizeFilename(u + y) == SanitizeFilename(y)
  {
    if |u| == 0 {
      assert u + y == y;
    } else {
      var e: string := [];
      calc {
        SanitizeFilename(u + y);
        { assert u + y == e + u + y; }
        SanitizeFilename(e + u + y);
        { SanitizeRun(e, u, y); }
        SanitizeFilename(e + "_" + y);
        { assert e + "_" + y == "_" + y; }
        SanitizeFilename("_" + y);
        { LeadingUnderscoreDropped(y); }
        SanitizeFilename(y);
      }
    }
  }

  /** A run of characters that are unsafe or `_` at the end of a name disappears. */
  lemma TrailingRunDropped(y: string, u: string)
    requires forall i :: 0 <= i < |u| ==> !IsSafe(u[i]) || u[i] == '_'
    ensures SanitizeFilename(y + u) == SanitizeFilename(y)
  {
    if |u| == 0 {
      assert y + u == y;
    } else {
      var e: string := [];
      calc {
        SanitizeFilename(y + u);
        { assert y + u == y + u + e; }
        SanitizeFilename(y + u + e);
        { SanitizeRun(y, u, e); }
        SanitizeFilename(y + "_" + e);
        { assert y + "_" + e == y + "_"; }
        SanitizeFilename(y + "_");
        { TrailingUnderscoreDropped(y); }
        SanitizeFilename(y);
      }
    }
  }

  /** The dot names `.` and `..` are already sanitised, so they come back unchanged. */
  lemma DotNamesSurvive()
    ensures SanitizeFilename(".") == "." && SanitizeFilename("..") == ".."
  {
    SanitizeFixesSanitized(".");
    SanitizeFixesSanitized("..");
  }
}
