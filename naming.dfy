/**
 * File names of segment clips: `sanitize_filename`, the index strings
 * (`format_index_string`), the two naming schemes (`format_index_filename`,
 * `generate_segment_filename`) and the template expansion `expand_filename_template`.
 */
module Naming {
  import opened Wrappers
  import opened Decimal
  import opened Keys

  // ---------------------------------------------------------------------------
  // sanitize_filename
  // ---------------------------------------------------------------------------

  /** The characters of the pattern `[\\/:*?"<>|]`, which cannot appear in a file name. */
  predicate InvalidChar(c: char)
  {
    c == '\\' || c == '/' || c == ':' || c == '*' || c == '?' || c == '"' || c == '<' || c == '>' || c == '|'
  }

  /** Characters that carry the text of a name: neither removed, nor a space, nor an underscore. */
  predicate Kept(c: char)
  {
    !InvalidChar(c) && c != ' ' && c != '_'
  }

  function KeptChars(s: string): string
  {
    if s == [] then [] else (if Kept(s[0]) then [s[0]] else []) + KeptChars(s[1..])
  }

  function WithoutUnderscores(s: string): string
  {
    if s == [] then [] else (if s[0] != '_' then [s[0]] else []) + WithoutUnderscores(s[1..])
  }

  lemma {:induction false} KeptConcat(a: string, b: string)
    ensures KeptChars(a + b) == KeptChars(a) + KeptChars(b)
    decreases |a|
  {
    if a == [] {
      assert a + b == b;
    } else {
      var head := if Kept(a[0]) then [a[0]] else [];
      assert (a + b)[0] == a[0] && (a + b)[1..] == a[1..] + b;
      assert KeptChars(a + b) == head + KeptChars(a[1..] + b);
      KeptConcat(a[1..], b);
      assert KeptChars(a) == head + KeptChars(a[1..]);
      assert head + (KeptChars(a[1..]) + KeptChars(b)) == (head + KeptChars(a[1..])) + KeptChars(b);
    }
  }

  lemma {:induction false} WithoutUnderscoresConcat(a: string, b: string)
    ensures WithoutUnderscores(a + b) == WithoutUnderscores(a) + WithoutUnderscores(b)
    decreases |a|
  {
    if a == [] {
      assert a + b == b;
    } else {
      assert (a + b)[0] == a[0] && (a + b)[1..] == a[1..] + b;
      WithoutUnderscoresConcat(a[1..], b);
    }
  }

  /** No path-hostile character and no space. */
  predicate Safe(s: string)
  {
    forall i :: 0 <= i < |s| ==> !InvalidChar(s[i]) && s[i] != ' '
  }

  predicate NoDoubleUnderscore(s: string)
  {
    forall i, j :: 0 <= i < |s| && 0 <= j < |s| && j == i + 1 ==> !(s[i] == '_' && s[j] == '_')
  }

  /** What `sanitize_filename` promises of its result. */
  predicate Clean(s: string)
  {
    && s != []
    && Safe(s)
    && NoDoubleUnderscore(s)
    && s[0] != '_'
    && s[|s| - 1] != '_'
  }

  /** `re.sub(r'[\\/:*?"<>|]', '', s)`. */
  function RemoveInvalid(s: string): (r: string)
    ensures forall i :: 0 <= i < |r| ==> !InvalidChar(r[i])
    ensures KeptChars(r) == KeptChars(s)
    ensures (forall i :: 0 <= i < |s| ==> !InvalidChar(s[i])) ==> r == s
  {
    if s == [] then []
    else
      var rest := RemoveInvalid(s[1..]);
      var r := (if InvalidChar(s[0]) then [] else [s[0]]) + rest;
      KeptConcat(if InvalidChar(s[0]) then [] else [s[0]], rest);
      assert s == [s[0]] + s[1..];
      KeptConcat([s[0]], s[1..]);
      r
  }

  /** `s.replace(' ', '_')`. */
  function SpacesToUnderscores(s: string): (r: string)
    ensures |r| == |s|
    ensures forall i :: 0 <= i < |r| ==> r[i] == (if s[i] == ' ' then '_' else s[i])
  {
    if s == [] then [] else [if s[0] == ' ' then '_' else s[0]] + SpacesToUnderscores(s[1..])
  }

  lemma {:induction false} SpacesKeepText(s: string)
    ensures KeptChars(SpacesToUnderscores(s)) == KeptChars(s)
    decreases |s|
  {
    if s != [] {
      var r := SpacesToUnderscores(s);
      assert r == [r[0]] + r[1..] && s == [s[0]] + s[1..];
      KeptConcat([r[0]], r[1..]);
      KeptConcat([s[0]], s[1..]);
      SpacesKeepText(s[1..]);
    }
  }

  /** `re.sub(r'_+', '_', s)`: every run of underscores becomes one underscore. */
  function CollapseUnderscores(s: string): (r: string)
    ensures |s| > 0 ==> |r| > 0 && r[0] == s[0]
    ensures |s| == 0 ==> r == []
    decreases |s|
  {
    if |s| <= 1 then s
    else if s[0] == '_' && s[1] == '_' then CollapseUnderscores(s[1..])
    else [s[0]] + CollapseUnderscores(s[1..])
  }

  /** Collapsing leaves no two adjacent underscores and keeps the last character. */
  lemma {:induction false} CollapseNoDouble(s: string)
    ensures var r := CollapseUnderscores(s);
      NoDoubleUnderscore(r) && (|s| > 0 ==> r[|r| - 1] == s[|s| - 1])
    decreases |s|
  {
    if |s| > 1 {
      var rest := CollapseUnderscores(s[1..]);
      CollapseNoDouble(s[1..]);
      if !(s[0] == '_' && s[1] == '_') {
        var r := [s[0]] + rest;
        assert r[1..] == rest;
        forall i, j | 0 <= i < j < |r| && j == i + 1
          ensures !(r[i] == '_' && r[j] == '_')
        {
          if i > 0 {
            assert r[i] == rest[i - 1] && r[j] == rest[j - 1];
          }
        }
      }
    }
  }

  /** Collapsing only drops underscores: it introduces no character and keeps every other one. */
  lemma {:induction false} CollapseKeeps(s: string)
    ensures Safe(s) ==> Safe(CollapseUnderscores(s))
    ensures KeptChars(CollapseUnderscores(s)) == KeptChars(s)
    decreases |s|
  {
    if |s| > 1 {
      var rest := CollapseUnderscores(s[1..]);
      CollapseKeeps(s[1..]);
      assert s == [s[0]] + s[1..];
      KeptConcat([s[0]], s[1..]);
      if !(s[0] == '_' && s[1] == '_') {
        KeptConcat([s[0]], rest);
      }
      if Safe(s) {
        assert Safe(s[1..]);
      }
    }
  }

  /** A string without underscore runs is left as it is. */
  lemma {:induction false} CollapseIdentity(s: string)
    requires NoDoubleUnderscore(s)
    ensures CollapseUnderscores(s) == s
    decreases |s|
  {
    if |s| > 1 {
      assert NoDoubleUnderscore(s[1..]) by {
        SliceKeepsShape(s, 1, |s|);
      }
      CollapseIdentity(s[1..]);
      assert s == [s[0]] + s[1..];
    }
  }

  /** `s.lstrip('_')`. */
  function LStrip(s: string): (r: string)
    ensures |r| <= |s| && r == s[|s| - |r|..]
    ensures r != [] ==> r[0] != '_'
    ensures KeptChars(r) == KeptChars(s)
    ensures (s == [] || s[0] != '_') ==> r == s
    decreases |s|
  {
    if s != [] && s[0] == '_' then
      assert s == [s[0]] + s[1..];
      KeptConcat([s[0]], s[1..]);
      LStrip(s[1..])
    else s
  }

  /** `s.rstrip('_')`. */
  function RStrip(s: string): (r: string)
    ensures |r| <= |s| && r == s[..|r|]
    ensures r != [] ==> r[|r| - 1] != '_'
    ensures KeptChars(r) == KeptChars(s)
    ensures (s == [] || s[|s| - 1] != '_') ==> r == s
    decreases |s|
  {
    if s != [] && s[|s| - 1] == '_' then
      assert s == s[..|s| - 1] + [s[|s| - 1]];
      KeptConcat(s[..|s| - 1], [s[|s| - 1]]);
      RStrip(s[..|s| - 1])
    else s
  }

  /** Python's slice `s[:k]`, where a negative `k` counts from the end. */
  function PyPrefix(s: string, k: int): (r: string)
    ensures |r| <= |s| && r == s[..|r|]
    ensures k >= 0 ==> |r| <= k
  {
    if k >= 0 then (if k <= |s| then s[..k] else s)
    else (if |s| + k >= 0 then s[..|s| + k] else [])
  }

  /** A part of a string keeps the string's character properties. */
  lemma SliceKeepsShape(s: string, a: nat, b: nat)
    requires a <= b <= |s|
    ensures Safe(s) ==> Safe(s[a..b])
    ensures NoDoubleUnderscore(s) ==> NoDoubleUnderscore(s[a..b])
  {
    var t := s[a..b];
    if NoDoubleUnderscore(s) {
      forall i, j | 0 <= i < j < |t| && j == i + 1
        ensures !(t[i] == '_' && t[j] == '_')
      {
        assert t[i] == s[a + i] && t[j] == s[a + j];
      }
    }
  }

  /** The text after the four rewriting steps, before truncation. */
  function Rewritten(text: string): string
  {
    LStrip(RStrip(CollapseUnderscores(SpacesToUnderscores(RemoveInvalid(text)))))
  }

  /**
   * `sanitize_filename(text, max_length)`: drop path-hostile characters, turn spaces into
   * underscores, collapse underscore runs, strip underscores at both ends, truncate to
   * `max_length` (then strip trailing underscores again), and fall back to "untitled".
   */
  function Sanitize(text: string, maxLength: Option<int>): (r: string)
    ensures Clean(r)
    ensures maxLength.Some? && maxLength.value >= 0 ==> |r| <= maxLength.value || r == "untitled"
  {
    var t := Truncated(Rewritten(text), maxLength);
    TruncatedShape(text, maxLength);
    UntitledClean();
    if t == [] then "untitled" else t
  }

  lemma UntitledClean()
    ensures Clean("untitled")
  {
    var u := "untitled";
    assert u[0] == 'u' && u[|u| - 1] == 'd';
    forall i | 0 <= i < |u|
      ensures !InvalidChar(u[i]) && u[i] != ' ' && u[i] != '_'
    {
    }
  }

  /** The optional truncation step: `s[:max_length].rstrip('_')` when `s` is too long. */
  function Truncated(s: string, maxLength: Option<int>): string
  {
    if maxLength.Some? && |s| > maxLength.value then RStrip(PyPrefix(s, maxLength.value)) else s
  }

  lemma TruncatedShape(text: string, maxLength: Option<int>)
    ensures var t := Truncated(Rewritten(text), maxLength);
      Safe(t) && NoDoubleUnderscore(t) && (t != [] ==> t[0] != '_' && t[|t| - 1] != '_')
    ensures maxLength.Some? && maxLength.value >= 0 ==> |Truncated(Rewritten(text), maxLength)| <= maxLength.value || Truncated(Rewritten(text), maxLength) == Rewritten(text)
  {
    var s := Rewritten(text);
    RewrittenShape(text);
    var t := Truncated(s, maxLength);
    if t != s {
      var p := PyPrefix(s, maxLength.value);
      SliceKeepsShape(s, 0, |p|);
      SliceKeepsShape(p, 0, |t|);
    }
  }

  /** The rewritten text has a clean shape, except that it may be empty. */
  lemma RewrittenShape(text: string)
    ensures var s := Rewritten(text);
      Safe(s) && NoDoubleUnderscore(s) && (s != [] ==> s[0] != '_' && s[|s| - 1] != '_')
  {
    var x2 := SpacesToUnderscores(RemoveInvalid(text));
    assert Safe(x2);
    var x3 := CollapseUnderscores(x2);
    CollapseShape(x2);
    var x4 := RStrip(x3);
    RStripShape(x3);
    var x5 := LStrip(x4);
    LStripShape(x4);
    if x5 != [] {
      assert x5[|x5| - 1] == x4[|x4| - 1];
    }
  }

  lemma CollapseShape(s: string)
    requires Safe(s)
    ensures Safe(CollapseUnderscores(s)) && NoDoubleUnderscore(CollapseUnderscores(s))
  {
    CollapseNoDouble(s);
    CollapseKeeps(s);
  }

  lemma RStripShape(s: string)
    requires Safe(s) && NoDoubleUnderscore(s)
    ensures Safe(RStrip(s)) && NoDoubleUnderscore(RStrip(s))
  {
    var r := RStrip(s);
    SliceKeepsShape(s, 0, |r|);
    assert r == s[0..|r|];
  }

  lemma LStripShape(s: string)
    requires Safe(s) && NoDoubleUnderscore(s)
    ensures Safe(LStrip(s)) && NoDoubleUnderscore(LStrip(s))
  {
    var l := LStrip(s);
    var a := |s| - |l|;
    SliceKeepsShape(s, a, |s|);
    assert l == s[a..] == s[a..|s|];
  }

  lemma {:induction false} SafeKeptIsWithoutUnderscores(s: string)
    requires Safe(s)
    ensures KeptChars(s) == WithoutUnderscores(s)
    decreases |s|
  {
    if s != [] {
      assert Safe(s[1..]);
      SafeKeptIsWithoutUnderscores(s[1..]);
    }
  }

  lemma RewrittenKeeps(text: string)
    ensures KeptChars(Rewritten(text)) == KeptChars(text)
  {
    var x1 := RemoveInvalid(text);
    var x2 := SpacesToUnderscores(x1);
    SpacesKeepText(x1);
    CollapseKeeps(x2);
  }

  /**
   * Sanitizing without a length limit loses no text: apart from underscores, the name holds
   * exactly the characters of `text` that are neither path-hostile, spaces nor underscores,
   * in order; when there are none the name is the fallback "untitled".
   */
  lemma SanitizeKeepsText(text: string)
    ensures KeptChars(text) == [] ==> Sanitize(text, None) == "untitled"
    ensures KeptChars(text) != [] ==> WithoutUnderscores(Sanitize(text, None)) == KeptChars(text)
  {
    var s := Rewritten(text);
    RewrittenKeeps(text);
    RewrittenShape(text);
    SafeKeptIsWithoutUnderscores(s);
    if s != [] {
      assert WithoutUnderscores(s) == [s[0]] + WithoutUnderscores(s[1..]);
    }
  }

  /** `s.rstrip('_')` drops nothing but underscores. */
  lemma {:induction false} RStripDropsUnderscores(s: string)
    ensures forall j :: |RStrip(s)| <= j < |s| ==> s[j] == '_'
    decreases |s|
  {
    if s != [] && s[|s| - 1] == '_' {
      RStripDropsUnderscores(s[..|s| - 1]);
    }
  }

  /**
   * Sanitizing with a limit `k` cuts the name sanitizing gives without one: a name that fits is
   * kept whole, a limit of 0 or a text with nothing to keep leaves "untitled", and otherwise the name is the longest prefix of
   * at most `k` characters of the unlimited name that does not end in an underscore (the cut
   * drops only underscores after the prefix).
   */
  lemma SanitizeTruncates(text: string, k: nat)
    ensures |Sanitize(text, None)| <= k ==> Sanitize(text, Some(k)) == Sanitize(text, None)
    ensures k == 0 || KeptChars(text) == [] ==> Sanitize(text, Some(k)) == "untitled"
    ensures k > 0 && KeptChars(text) != [] ==>
      var full, r := Sanitize(text, None), Sanitize(text, Some(k));
      && |r| <= k
      && |r| <= |full|
      && r == full[..|r|]
      && forall j :: |r| <= j < k && j < |full| ==> full[j] == '_'
  {
    var s := Rewritten(text);
    RewrittenEnds(text);
    var t := Truncated(s, Some(k));
    assert Truncated(s, None) == s;
    assert Sanitize(text, Some(k)) == if t == [] then "untitled" else t;
    if s == [] {
      assert KeptChars(s) == [];
    } else {
      assert Sanitize(text, None) == s;
      if |s| > k {
        TruncatedPrefix(s, k);
      }
    }
  }

  /** The rewritten text is empty exactly when no character of the text is kept, and never starts with an underscore. */
  lemma RewrittenEnds(text: string)
    ensures Rewritten(text) == [] <==> KeptChars(text) == []
    ensures Rewritten(text) != [] ==> Rewritten(text)[0] != '_'
  {
    var s := Rewritten(text);
    RewrittenKeeps(text);
    RewrittenShape(text);
    if s != [] {
      assert Kept(s[0]);
    }
  }

  /** Cutting a string that does not start with an underscore. */
  lemma TruncatedPrefix(s: string, k: nat)
    requires |s| > k && s[0] != '_'
    ensures var t := Truncated(s, Some(k));
      && (k == 0 ==> t == [])
      && (k > 0 ==> t != [] && |t| <= k && t == s[..|t|])
      && forall j :: |t| <= j < k ==> s[j] == '_'
  {
    var p := PyPrefix(s, k);
    assert p == s[..k];
    var t := RStrip(p);
    assert Truncated(s, Some(k)) == t;
    RStripDropsUnderscores(p);
    forall j | |t| <= j < k
      ensures s[j] == '_'
    {
      assert p[j] == s[j];
    }
    if k > 0 {
      assert p[0] == s[0];
      RStripKeepsHead(p);
      assert t == s[..|t|];
    }
  }

  /** A string that does not start with an underscore keeps that character when right-stripped. */
  lemma {:induction false} RStripKeepsHead(s: string)
    requires s != [] && s[0] != '_'
    ensures RStrip(s) != []
    decreases |s|
  {
    if s[|s| - 1] == '_' {
      RStripKeepsHead(s[..|s| - 1]);
    }
  }

  /** `n` copies of `c`. */
  function Repeat(c: char, n: nat): (r: string)
    ensures |r| == n && forall i :: 0 <= i < n ==> r[i] == c
  {
    if n == 0 then [] else [c] + Repeat(c, n - 1)
  }

  predicate AllKept(s: string)
  {
    forall i :: 0 <= i < |s| ==> Kept(s[i])
  }

  /** A run of underscores in front of a word collapses to one. */
  lemma {:induction false} CollapseRun(n: nat, b: string)
    requires n >= 1 && b != [] && b[0] != '_' && NoDoubleUnderscore(b)
    ensures CollapseUnderscores(Repeat('_', n) + b) == "_" + b
    decreases n
  {
    var s := Repeat('_', n) + b;
    if n == 1 {
      assert s[1..] == b;
      CollapseIdentity(b);
    } else {
      assert s[1..] == Repeat('_', n - 1) + b;
      CollapseRun(n - 1, b);
    }
  }

  /** Collapsing passes over a prefix without underscores. */
  lemma {:induction false} CollapseWord(a: string, w: string)
    requires forall i :: 0 <= i < |a| ==> a[i] != '_'
    requires w != []
    ensures CollapseUnderscores(a + w) == a + CollapseUnderscores(w)
    decreases |a|
  {
    if a == [] {
      assert a + w == w;
    } else {
      var s := a + w;
      assert s[0] == a[0] && s[1..] == a[1..] + w;
      CollapseWord(a[1..], w);
      assert a == [a[0]] + a[1..];
    }
  }

  /** Between two words, removing invalid characters changes nothing and spaces become underscores. */
  lemma SpacedWords(a: string, n: nat, b: string)
    requires AllKept(a) && AllKept(b)
    ensures var text := a + Repeat(' ', n) + b;
      SpacesToUnderscores(RemoveInvalid(text)) == a + (Repeat('_', n) + b)
  {
    var text := a + Repeat(' ', n) + b;
    SpacedWordsValid(a, n, b);
    assert RemoveInvalid(text) == text;
    SpacedWordsUnderscored(a, n, b);
  }

  lemma SpacedWordsValid(a: string, n: nat, b: string)
    requires AllKept(a) && AllKept(b)
    ensures var text := a + Repeat(' ', n) + b;
      forall i :: 0 <= i < |text| ==> !InvalidChar(text[i])
  {
    var text := a + Repeat(' ', n) + b;
    forall i | 0 <= i < |text|
      ensures !InvalidChar(text[i])
    {
      if i < |a| {
        assert text[i] == a[i];
      } else if i >= |a| + n {
        assert text[i] == b[i - |a| - n];
      }
    }
  }

  /** Spaces become underscores piece by piece. */
  lemma SpacesConcat(x: string, y: string)
    ensures SpacesToUnderscores(x + y) == SpacesToUnderscores(x) + SpacesToUnderscores(y)
  {
    var r, l := SpacesToUnderscores(x + y), SpacesToUnderscores(x) + SpacesToUnderscores(y);
    forall i | 0 <= i < |r|
      ensures r[i] == l[i]
    {
      if i < |x| {
        assert (x + y)[i] == x[i];
      } else {
        assert (x + y)[i] == y[i - |x|];
      }
    }
  }

  lemma SpacesToUnderscoresKept(a: string)
    requires AllKept(a)
    ensures SpacesToUnderscores(a) == a
  {
  }

  lemma SpacesToUnderscoresRun(n: nat)
    ensures SpacesToUnderscores(Repeat(' ', n)) == Repeat('_', n)
  {
  }

  lemma SpacedWordsUnderscored(a: string, n: nat, b: string)
    requires AllKept(a) && AllKept(b)
    ensures SpacesToUnderscores(a + Repeat(' ', n) + b) == a + (Repeat('_', n) + b)
  {
    var sp, us := Repeat(' ', n), Repeat('_', n);
    assert SpacesToUnderscores(a + sp) == a + us by {
      SpacesConcat(a, sp);
      SpacesToUnderscoresKept(a);
      SpacesToUnderscoresRun(n);
    }
    assert SpacesToUnderscores(a + sp + b) == (a + us) + b by {
      SpacesConcat(a + sp, b);
      SpacesToUnderscoresKept(b);
    }
    assert (a + us) + b == a + (us + b);
  }

  /** However many spaces separate two words, the name joins them with one underscore. */
  lemma WordsJoined(a: string, n: nat, b: string)
    requires a != [] && b != [] && n >= 1
    requires AllKept(a) && AllKept(b)
    ensures Sanitize(a + Repeat(' ', n) + b, None) == a + "_" + b
  {
    var text := a + Repeat(' ', n) + b;
    SpacedWords(a, n, b);
    assert b[0] != '_' && NoDoubleUnderscore(b);
    CollapseRun(n, b);
    CollapseWord(a, Repeat('_', n) + b);
    var joined := a + "_" + b;
    assert CollapseUnderscores(a + (Repeat('_', n) + b)) == joined;
    assert joined[|joined| - 1] == b[|b| - 1] && joined[0] == a[0];
    assert Rewritten(text) == joined;
    assert Truncated(joined, None) == joined;
  }

  /** The rewriting steps leave a clean name as it is. */
  lemma CleanRewritesToItself(s: string)
    requires Clean(s)
    ensures Rewritten(s) == s
  {
    assert forall i :: 0 <= i < |s| ==> !InvalidChar(s[i]);
    assert RemoveInvalid(s) == s;
    var x2 := SpacesToUnderscores(s);
    assert forall i :: 0 <= i < |s| ==> x2[i] == s[i];
    assert x2 == s;
    CollapseIdentity(s);
  }

  /** The names sanitizing leaves unchanged are exactly the clean ones. */
  lemma SanitizeFixpoint(s: string)
    ensures Sanitize(s, None) == s <==> Clean(s)
  {
    if Clean(s) {
      CleanRewritesToItself(s);
      assert Truncated(s, None) == s;
    } else {
      assert Clean(Sanitize(s, None));
    }
  }

  /** Sanitizing a sanitized name changes nothing. */
  lemma SanitizeIdempotent(text: string, maxLength: Option<int>)
    ensures Sanitize(Sanitize(text, maxLength), None) == Sanitize(text, maxLength)
  {
    SanitizeFixpoint(Sanitize(text, maxLength));
  }

  // ---------------------------------------------------------------------------
  // Index strings and file names
  // ---------------------------------------------------------------------------

  /** A stored `index_sub`, where `None` reads as 0. */
  function SubOf(sub: Option<nat>): nat
  {
    sub.GetOr(0)
  }

  /**
   * `format_index_string`: the index zero-padded to `indexDigits`, followed by "-" and the
   * sub-key zero-padded to `subDigits` only when the sub-key is present and non-zero.
   */
  function FormatIndexString(index: nat, sub: Option<nat>, indexDigits: nat, subDigits: nat): (r: string)
    ensures |r| >= indexDigits
    ensures DigitsOrDash(r) && AtMostOneDash(r)
    ensures '-' in r <==> sub.Some? && sub.value != 0
  {
    var head := ZFill(NatToString(index), indexDigits);
    ZFillDigits(NatToString(index), indexDigits);
    if sub.Some? && sub.value != 0 then
      var tail := ZFill(NatToString(sub.value), subDigits);
      ZFillDigits(NatToString(sub.value), subDigits);
      DashJoinDigits(head, tail);
      head + "-" + tail
    else head
  }

  /** Only decimal digits and dashes. */
  predicate DigitsOrDash(s: string)
  {
    forall i :: 0 <= i < |s| ==> IsDigit(s[i]) || s[i] == '-'
  }

  /** No two dashes. */
  predicate AtMostOneDash(s: string)
  {
    forall i, j :: 0 <= i < j < |s| && s[i] == '-' ==> s[j] != '-'
  }

  /** Two digit strings joined by a dash hold that one dash and nothing but digits besides. */
  lemma DashJoinDigits(a: string, b: string)
    requires AllDigits(a) && AllDigits(b)
    ensures DigitsOrDash(a + "-" + b) && AtMostOneDash(a + "-" + b) && '-' in a + "-" + b
    ensures DigitsOrDash(a) && AtMostOneDash(a) && '-' !in a
  {
    var r := a + "-" + b;
    forall i | 0 <= i < |r|
      ensures IsDigit(r[i]) || r[i] == '-'
      ensures r[i] == '-' ==> i == |a|
    {
      if i < |a| {
        assert r[i] == a[i];
      } else if i > |a| {
        assert r[i] == b[i - |a| - 1];
      }
    }
    assert r[|a|] == '-';
  }

  /** Position of the first `c` in `s`, or `|s|` when there is none. */
  function IndexOf(s: string, c: char): (k: nat)
    ensures k <= |s| && (k < |s| ==> s[k] == c)
    ensures forall j :: 0 <= j < k ==> s[j] != c
  {
    if s == [] then 0 else if s[0] == c then 0 else 1 + IndexOf(s[1..], c)
  }

  /** `IndexOf` finds `c` at `p` when `p` holds the first `c`. */
  lemma IndexOfAt(s: string, c: char, p: nat)
    requires p <= |s| && (p < |s| ==> s[p] == c)
    requires forall j :: 0 <= j < p ==> s[j] != c
    ensures IndexOf(s, c) == p
  {
  }

  /** Reads an index string back into a key; `None` for anything not of that form. */
  function ParseIndexString(s: string): Option<Key>
  {
    var k := IndexOf(s, '-');
    if k == |s| then
      if s != [] && AllDigits(s) then Some(Key(Value(s), 0)) else None
    else
      var a, b := s[..k], s[k + 1..];
      if a != [] && b != [] && AllDigits(a) && AllDigits(b) then Some(Key(Value(a), Value(b))) else None
  }

  lemma ParseDigits(a: string)
    requires a != [] && AllDigits(a)
    ensures ParseIndexString(a) == Some(Key(Value(a), 0))
  {
    IndexOfAt(a, '-', |a|);
  }

  lemma ParseDigitsDashDigits(a: string, b: string)
    requires a != [] && AllDigits(a) && b != [] && AllDigits(b)
    ensures ParseIndexString(a + "-" + b) == Some(Key(Value(a), Value(b)))
  {
    var s := a + "-" + b;
    IndexOfAt(s, '-', |a|);
    assert s[..|a|] == a && s[|a| + 1..] == b;
  }

  /** An index string encodes its key: reading it back gives `(index, index_sub or 0)`. */
  lemma FormatIndexStringRoundTrip(index: nat, sub: Option<nat>, indexDigits: nat, subDigits: nat)
    ensures ParseIndexString(FormatIndexString(index, sub, indexDigits, subDigits)) == Some(Key(index, SubOf(sub)))
  {
    var head := ZFill(NatToString(index), indexDigits);
    ValueOfZFill(index, indexDigits);
    if sub.Some? && sub.value != 0 {
      var tail := ZFill(NatToString(sub.value), subDigits);
      ValueOfZFill(sub.value, subDigits);
      ParseDigitsDashDigits(head, tail);
    } else {
      ParseDigits(head);
    }
  }

  /** `extension` with a leading dot ensured. */
  function DotExtension(extension: string): (e: string)
    ensures |e| >= 1 && e[0] == '.'
    ensures |extension| > 0 && extension[0] == '.' ==> e == extension
    ensures |extension| == 0 || extension[0] != '.' ==> e == "." + extension
  {
    if |extension| > 0 && extension[0] == '.' then extension else "." + extension
  }

  predicate EndsWith(s: string, suffix: string)
  {
    |suffix| <= |s| && s[|s| - |suffix|..] == suffix
  }

  /**
   * `format_index_filename`: the index string, "_", the sanitized text and the extension
   * with a leading dot.
   */
  function FormatIndexFilename(index: nat, sub: Option<nat>, text: string, extension: string,
                               indexDigits: nat, subDigits: nat, maxLength: Option<int>): (r: string)
    ensures EndsWith(r, DotExtension(extension))
  {
    FormatIndexString(index, sub, indexDigits, subDigits) + "_" + Sanitize(text, maxLength) + DotExtension(extension)
  }

  /** The key a file name starts with: the part before the first underscore, read back. */
  function ParseFilenameKey(name: string): Option<Key>
  {
    ParseIndexString(name[..IndexOf(name, '_')])
  }

  lemma ParseFilenameKeyPrefix(head: string, s: string, e: string)
    requires forall i :: 0 <= i < |head| ==> head[i] != '_'
    ensures ParseFilenameKey(head + "_" + s + e) == ParseIndexString(head)
  {
    var name := head + "_" + s + e;
    assert name[|head|] == '_';
    IndexOfAt(name, '_', |head|);
    assert name[..|head|] == head;
  }

  /** A file name encodes its segment's key. */
  lemma FilenameEncodesKey(index: nat, sub: Option<nat>, text: string, extension: string,
                           indexDigits: nat, subDigits: nat, maxLength: Option<int>)
    ensures ParseFilenameKey(FormatIndexFilename(index, sub, text, extension, indexDigits, subDigits, maxLength))
            == Some(Key(index, SubOf(sub)))
  {
    var head := FormatIndexString(index, sub, indexDigits, subDigits);
    ParseFilenameKeyPrefix(head, Sanitize(text, maxLength), DotExtension(extension));
    FormatIndexStringRoundTrip(index, sub, indexDigits, subDigits);
  }

  /** Segments with different keys never share a file name, whatever their texts. */
  lemma FilenameInjective(i1: nat, s1: Option<nat>, t1: string, i2: nat, s2: Option<nat>, t2: string,
                          extension: string, indexDigits: nat, subDigits: nat, maxLength: Option<int>)
    requires FormatIndexFilename(i1, s1, t1, extension, indexDigits, subDigits, maxLength)
          == FormatIndexFilename(i2, s2, t2, extension, indexDigits, subDigits, maxLength)
    ensures i1 == i2 && SubOf(s1) == SubOf(s2)
  {
    FilenameEncodesKey(i1, s1, t1, extension, indexDigits, subDigits, maxLength);
    FilenameEncodesKey(i2, s2, t2, extension, indexDigits, subDigits, maxLength);
  }

  /** `generate_segment_filename`: the legacy name, `f"{index:03d}_{text}{extension}"`. */
  function GenerateSegmentFilename(index: nat, text: string, extension: string, maxLength: Option<int>): (r: string)
    ensures EndsWith(r, DotExtension(extension))
  {
    ZFill(NatToString(index), 3) + "_" + Sanitize(text, maxLength) + DotExtension(extension)
  }

  /**
   * A legacy flat index, migrated to a key, names its file exactly as the legacy scheme did
   * (with the default three index digits).
   */
  lemma MigratedNameUnchanged(flat: nat, text: string, extension: string, subDigits: nat, maxLength: Option<int>)
    ensures var k := MigrateOldIndex(flat);
      FormatIndexFilename(k.index, Some(k.sub), text, extension, 3, subDigits, maxLength)
      == GenerateSegmentFilename(flat, text, extension, maxLength)
  {
  }

  // ---------------------------------------------------------------------------
  // expand_filename_template
  // ---------------------------------------------------------------------------

  const IndexTag := "{index}"
  const BasenameTag := "{basename}"
  /** The default file-name template, "{index}_{basename}". */
  const DefaultTemplate := IndexTag + "_" + BasenameTag

  /** `s.replace(pat, rep)`: every non-overlapping occurrence, scanning left to right. */
  function Replace(s: string, pat: string, rep: string): string
    requires |pat| > 0
    decreases |s|
  {
    if |s| < |pat| then s
    else if s[..|pat|] == pat then rep + Replace(s[|pat|..], pat, rep)
    else [s[0]] + Replace(s[1..], pat, rep)
  }

  /** A prefix that cannot start the pattern passes through replacement untouched. */
  lemma {:induction false} ReplaceSkips(x: string, y: string, pat: string, rep: string)
    requires |pat| > 0
    requires forall i :: 0 <= i < |x| ==> x[i] != pat[0]
    ensures Replace(x + y, pat, rep) == x + Replace(y, pat, rep)
    decreases |x|
  {
    if x == [] {
      assert x + y == y;
    } else if |x + y| < |pat| {
    } else {
      assert (x + y)[..|pat|][0] == x[0];
      assert (x + y)[1..] == x[1..] + y;
      ReplaceSkips(x[1..], y, pat, rep);
    }
  }

  /**
   * `expand_filename_template`: substitute `{index}` and then `{basename}` (sanitized text plus
   * extension), and append the extension when the expansion does not already end with it.
   */
  function ExpandFilenameTemplate(template: string, index: nat, sub: Option<nat>, text: string, extension: string,
                                  indexDigits: nat, subDigits: nat, maxLength: Option<int>): (r: string)
    ensures EndsWith(r, DotExtension(extension))
  {
    var e := DotExtension(extension);
    var basename := Sanitize(text, maxLength) + e;
    var r := Replace(Replace(template, IndexTag, FormatIndexString(index, sub, indexDigits, subDigits)), BasenameTag, basename);
    if EndsWith(r, e) then r
    else
      assert (r + e)[|r|..] == e;
      r + e
  }

  /** A position where the pattern does not start is copied through. */
  lemma ReplaceNoMatchHere(c: char, y: string, pat: string, rep: string)
    requires |pat| > 0
    requires |[c] + y| < |pat| || ([c] + y)[..|pat|] != pat
    ensures Replace([c] + y, pat, rep) == [c] + Replace(y, pat, rep)
  {
    assert ([c] + y)[1..] == y;
  }

  lemma ReplaceIndexMissesTail(idx: string)
    ensures Replace("_" + BasenameTag, IndexTag, idx) == "_" + BasenameTag
  {
    var b := BasenameTag;
    var tail := b[1..];
    assert forall i :: 0 <= i < |tail| ==> tail[i] != '{';
    ReplaceSkips(tail, [], IndexTag, idx);
    assert tail + [] == tail;
    assert b[..7][1] != IndexTag[1];
    assert b == [b[0]] + tail;
    ReplaceNoMatchHere('{', tail, IndexTag, idx);
    ReplaceNoMatchHere('_', b, IndexTag, idx);
  }

  lemma ReplaceIndexInDefault(idx: string)
    ensures Replace(DefaultTemplate, IndexTag, idx) == idx + ("_" + BasenameTag)
  {
    var t := DefaultTemplate;
    assert t == IndexTag + ("_" + BasenameTag);
    assert t[..|IndexTag|] == IndexTag && t[|IndexTag|..] == "_" + BasenameTag;
    ReplaceIndexMissesTail(idx);
  }

  lemma ReplaceBasenameInDefault(idx: string, s: string, e: string)
    requires forall i :: 0 <= i < |idx| ==> idx[i] != '{'
    ensures Replace(idx + ("_" + BasenameTag), BasenameTag, s + e) == idx + "_" + s + e
  {
    var b := BasenameTag;
    ReplaceSkips(idx, "_" + b, b, s + e);
    ReplaceSkips("_", b, b, s + e);
    assert b[..|b|] == b && b[|b|..] == [];
    assert idx + ("_" + (s + e)) == idx + "_" + s + e;
  }

  /** The template "{index}_{basename}" expands to the name `format_index_filename` builds. */
  lemma DefaultTemplateIsFormatIndexFilename(index: nat, sub: Option<nat>, text: string, extension: string,
                                             indexDigits: nat, subDigits: nat, maxLength: Option<int>)
    ensures ExpandFilenameTemplate(DefaultTemplate, index, sub, text, extension, indexDigits, subDigits, maxLength)
         == FormatIndexFilename(index, sub, text, extension, indexDigits, subDigits, maxLength)
  {
    var idx := FormatIndexString(index, sub, indexDigits, subDigits);
    var s := Sanitize(text, maxLength);
    var e := DotExtension(extension);
    ReplaceIndexInDefault(idx);
    ReplaceBasenameInDefault(idx, s, e);
    assert idx + "_" + s + e == FormatIndexFilename(index, sub, text, extension, indexDigits, subDigits, maxLength);
  }

}
