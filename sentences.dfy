/**
 * Splitting transcript text into sentences at the Japanese sentence-ending marks
 * 。 (U+3002), ！ (U+FF01) and ？ (U+FF1F). A sentence keeps its closing mark; text
 * after the last mark is a final sentence of its own; pieces that are empty or only
 * whitespace are dropped.
 */
module Sentences {

  predicate IsPunct(c: char)
  {
    c == '\U{3002}' || c == '\U{FF01}' || c == '\U{FF1F}'
  }

  /** The characters Python's `str.strip()` removes (`str.isspace`). */
  predicate IsSpace(c: char)
  {
    ('\t' <= c <= '\r') || ('\U{1C}' <= c <= '\U{1F}') || c == ' ' || c == '\U{85}' || c == '\U{A0}'
    || c == '\U{1680}' || ('\U{2000}' <= c <= '\U{200A}') || c == '\U{2028}' || c == '\U{2029}'
    || c == '\U{202F}' || c == '\U{205F}' || c == '\U{3000}'
  }

  /** `not s.strip()`: the string is empty or only whitespace. */
  predicate IsBlank(s: string)
  {
    s == [] || (IsSpace(s[0]) && IsBlank(s[1..]))
  }

  lemma {:induction false} BlankIsAllSpace(s: string)
    ensures IsBlank(s) <==> forall i :: 0 <= i < |s| ==> IsSpace(s[i])
  {
    if s != [] {
      BlankIsAllSpace(s[1..]);
      assert forall i :: 1 <= i < |s| ==> s[i] == s[1..][i - 1];
    }
  }

  /** The first mark at or after `p`, or `|text|` when there is none. */
  function NextPunct(text: string, p: nat): (q: nat)
    requires p <= |text|
    ensures p <= q <= |text|
    decreases |text| - p
  {
    if p == |text| then p else if IsPunct(text[p]) then p else NextPunct(text, p + 1)
  }

  /** What `NextPunct` finds is a mark, unless it is the end of the text. */
  lemma {:induction false} NextPunctFinds(text: string, p: nat)
    requires p <= |text|
    ensures NextPunct(text, p) < |text| ==> IsPunct(text[NextPunct(text, p)])
    decreases |text| - p
  {
    if p < |text| && !IsPunct(text[p]) {
      NextPunctFinds(text, p + 1);
    }
  }

  /** No mark lies between `p` and the mark `NextPunct` finds. */
  lemma {:induction false} NextPunctSkips(text: string, p: nat)
    requires p <= |text|
    ensures forall j :: p <= j < NextPunct(text, p) ==> !IsPunct(text[j])
    decreases |text| - p
  {
    if p < |text| && !IsPunct(text[p]) {
      NextPunctSkips(text, p + 1);
    }
  }

  /** `NextPunct` finds the first mark: any `q` with no mark before it and a mark (or the end) at it. */
  lemma {:induction false} NextPunctAt(text: string, p: nat, q: nat)
    requires p <= q <= |text| && (q < |text| ==> IsPunct(text[q]))
    requires forall j :: p <= j < q ==> !IsPunct(text[j])
    ensures NextPunct(text, p) == q
    decreases q - p
  {
    if p < q {
      NextPunctAt(text, p + 1, q);
    }
  }

  /** A sentence with its half-open character range `[start, end)` in the text. */
  datatype Sentence = Sentence(text: string, start: nat, end: nat)

  /** `(text[a:b], a, b)` as a one-element list, or nothing when that slice is blank. */
  function Piece(text: string, a: nat, b: nat): seq<Sentence>
    requires a <= b <= |text|
  {
    if IsBlank(text[a..b]) then [] else [Sentence(text[a..b], a, b)]
  }

  /** The sentences of `text[p..]`, as `split_sentences_with_positions` reports them. */
  function SentencesFrom(text: string, p: nat): seq<Sentence>
    requires p <= |text|
    decreases |text| - p
  {
    if p == |text| then []
    else
      var q := NextPunct(text, p);
      if q == |text| then Piece(text, p, |text|)
      else Piece(text, p, q + 1) + SentencesFrom(text, q + 1)
  }

  lemma CutAtPunct(text: string, p: nat, q: nat)
    requires p <= q < |text| && NextPunct(text, p) == q
    ensures SentencesFrom(text, p) == Piece(text, p, q + 1) + SentencesFrom(text, q + 1)
  {
  }

  lemma CutAtEnd(text: string, p: nat)
    requires p < |text| && NextPunct(text, p) == |text|
    ensures SentencesFrom(text, p) == Piece(text, p, |text|)
  {
  }

  /** The first mark after `p` is at `q` when `q` holds a mark and no mark comes earlier. */
  lemma CutAt(text: string, p: nat, q: nat)
    requires p <= q < |text| && IsPunct(text[q]) && q <= NextPunct(text, p)
    ensures SentencesFrom(text, p) == Piece(text, p, q + 1) + SentencesFrom(text, q + 1)
  {
    NextPunctSkips(text, p);
    assert NextPunct(text, p) == q;
    CutAtPunct(text, p, q);
  }

  lemma Associative<T>(a: seq<T>, b: seq<T>, c: seq<T>)
    ensures (a + b) + c == a + (b + c)
  {
  }

  /** Moving a piece from the unscanned rest to the result keeps the whole unchanged. */
  lemma ShiftPiece<T>(done: seq<T>, piece: seq<T>, rest: seq<T>, whole: seq<T>, all: seq<T>)
    requires whole == piece + rest && done + whole == all
    ensures (done + piece) + rest == all
  {
    Associative(done, piece, rest);
  }

  /**
   * `split_sentences_with_positions`: one scan over the text, cutting after every mark; each
   * cut piece, and the text after the last mark, is kept when it is not blank.
   */
  method SplitSentencesWithPositions(text: string) returns (sentences: seq<Sentence>)
    ensures sentences == SentencesFrom(text, 0)
  {
    sentences := [];
    var current := 0;
    var i := 0;
    ghost var all := SentencesFrom(text, 0);
    while i < |text|
      invariant current <= i <= |text|
      invariant i <= NextPunct(text, current)
      invariant sentences + SentencesFrom(text, current) == all
    {
      NextPunctFinds(text, current);
      if IsPunct(text[i]) {
        CutAt(text, current, i);
        ShiftPiece(sentences, Piece(text, current, i + 1), SentencesFrom(text, i + 1), SentencesFrom(text, current), all);
        sentences := sentences + Piece(text, current, i + 1);
        current := i + 1;
      }
      i := i + 1;
    }
    if current < |text| {
      CutAtEnd(text, current);
      sentences := sentences + Piece(text, current, |text|);
    }
  }

  /**
   * A sentence is the slice of the text it claims, is not blank, and ends at a mark unless it
   * runs to the end of the text; no mark occurs before its last character.
   */
  ghost predicate SentenceOk(text: string, s: Sentence)
  {
    s.start < s.end <= |text|
    && s.text == text[s.start..s.end]
    && !IsBlank(s.text)
    && (s.end < |text| ==> IsPunct(text[s.end - 1]))
    && (forall k :: s.start <= k < s.end - 1 ==> !IsPunct(text[k]))
  }

  /** Every sentence is well formed and starts at or after `p` and after the one before it ends. */
  ghost predicate WellFormed(text: string, ss: seq<Sentence>, p: nat)
    decreases |ss|
  {
    ss == [] || (p <= ss[0].start && SentenceOk(text, ss[0]) && WellFormed(text, ss[1..], ss[0].end))
  }

  lemma ConsWellFormed(text: string, s: Sentence, rest: seq<Sentence>, p: nat)
    requires p <= s.start && SentenceOk(text, s) && WellFormed(text, rest, s.end)
    ensures WellFormed(text, [s] + rest, p)
  {
    assert ([s] + rest)[0] == s && ([s] + rest)[1..] == rest;
  }

  lemma WellFormedLower(text: string, ss: seq<Sentence>, p: nat, m: nat)
    requires p <= m && WellFormed(text, ss, m)
    ensures WellFormed(text, ss, p)
  {
  }

  /** At most one sentence ending at `m`, in front of a list well formed from `m`. */
  lemma PrependWellFormed(text: string, piece: seq<Sentence>, rest: seq<Sentence>, p: nat, m: nat)
    requires |piece| <= 1 && p <= m && WellFormed(text, rest, m)
    requires forall s :: s in piece ==> p <= s.start && s.end == m && SentenceOk(text, s)
    ensures WellFormed(text, piece + rest, p)
  {
    if piece == [] {
      assert piece + rest == rest;
      WellFormedLower(text, rest, p, m);
    } else {
      var s := piece[0];
      assert piece == [s] && s in piece;
      ConsWellFormed(text, s, rest, p);
    }
  }

  lemma PieceWellFormed(text: string, p: nat, q: nat)
    requires p <= q < |text|
    requires IsPunct(text[q]) && forall j :: p <= j < q ==> !IsPunct(text[j])
    ensures forall s :: s in Piece(text, p, q + 1) ==> s.start == p && s.end == q + 1 && SentenceOk(text, s)
  {
  }

  /** The piece cut at the mark `q`, in front of a list well formed from `q + 1`. */
  lemma PrependPiece(text: string, p: nat, q: nat, rest: seq<Sentence>)
    requires p <= q < |text|
    requires IsPunct(text[q]) && forall j :: p <= j < q ==> !IsPunct(text[j])
    requires WellFormed(text, rest, q + 1)
    ensures WellFormed(text, Piece(text, p, q + 1) + rest, p)
  {
    PieceWellFormed(text, p, q);
    PrependWellFormed(text, Piece(text, p, q + 1), rest, p, q + 1);
  }

  lemma RemainderWellFormed(text: string, p: nat)
    requires p < |text| && forall j :: p <= j < |text| ==> !IsPunct(text[j])
    ensures forall s :: s in Piece(text, p, |text|) ==> s.start == p && s.end == |text| && SentenceOk(text, s)
  {
  }

  lemma WellFormedAtEnd(text: string, p: nat)
    requires p < |text| && NextPunct(text, p) == |text|
    ensures WellFormed(text, SentencesFrom(text, p), p)
  {
    NextPunctSkips(text, p);
    RemainderWellFormed(text, p);
    CutAtEnd(text, p);
    var piece := Piece(text, p, |text|);
    if piece != [] {
      assert piece[1..] == [];
    }
  }

  lemma WellFormedAtMark(text: string, p: nat)
    requires p < |text| && NextPunct(text, p) < |text|
    requires WellFormed(text, SentencesFrom(text, NextPunct(text, p) + 1), NextPunct(text, p) + 1)
    ensures WellFormed(text, SentencesFrom(text, p), p)
  {
    var q := NextPunct(text, p);
    NextPunctSkips(text, p);
    NextPunctFinds(text, p);
    PrependPiece(text, p, q, SentencesFrom(text, q + 1));
    CutAtPunct(text, p, q);
  }

  /** Every reported sentence is well formed, and the sentences are in text order. */
  lemma {:induction false} SentencesWellFormed(text: string, p: nat)
    requires p <= |text|
    ensures WellFormed(text, SentencesFrom(text, p), p)
    decreases |text| - p
  {
    if p < |text| {
      var q := NextPunct(text, p);
      if q == |text| {
        WellFormedAtEnd(text, p);
      } else {
        SentencesWellFormed(text, q + 1);
        WellFormedAtMark(text, p);
      }
    }
  }

  /** A well-formed list's ranges lie after `p`, each sentence is well formed, and ranges never overlap. */
  lemma {:induction false} WellFormedRanges(text: string, ss: seq<Sentence>, p: nat)
    requires WellFormed(text, ss, p)
    ensures forall i :: 0 <= i < |ss| ==> p <= ss[i].start && SentenceOk(text, ss[i])
    ensures forall i, j :: 0 <= i < j < |ss| ==> ss[i].end <= ss[j].start
    decreases |ss|
  {
    if ss != [] {
      WellFormedRanges(text, ss[1..], ss[0].end);
      forall i, j | 0 <= i < j < |ss|
        ensures ss[i].end <= ss[j].start
      {
        assert ss[j] == ss[1..][j - 1];
        if i > 0 {
          assert ss[i] == ss[1..][i - 1];
        }
      }
      forall i | 0 <= i < |ss|
        ensures p <= ss[i].start && SentenceOk(text, ss[i])
      {
        if i > 0 {
          assert ss[i] == ss[1..][i - 1];
        }
      }
    }
  }

  /**
   * The sentences `split_sentences_with_positions` reports: each is the slice `text[start:end]`,
   * is not blank and ends at a mark or at the end of the text; their ranges increase and do
   * not overlap.
   */
  lemma SentencesFromStart(text: string)
    ensures var ss := SentencesFrom(text, 0);
      (forall i :: 0 <= i < |ss| ==> SentenceOk(text, ss[i]))
      && (forall i, j :: 0 <= i < j < |ss| ==> ss[i].end <= ss[j].start)
  {
    SentencesWellFormed(text, 0);
    WellFormedRanges(text, SentencesFrom(text, 0), 0);
  }

  /** Some sentence of `ss` has position `k` in its range. */
  ghost predicate Covered(ss: seq<Sentence>, k: nat)
  {
    ss != [] && (ss[0].start <= k < ss[0].end || Covered(ss[1..], k))
  }

  lemma {:induction false} CoveredMeans(ss: seq<Sentence>, k: nat)
    ensures Covered(ss, k) <==> exists j :: 0 <= j < |ss| && ss[j].start <= k < ss[j].end
  {
    if ss != [] {
      CoveredMeans(ss[1..], k);
      if Covered(ss[1..], k) {
        var j :| 0 <= j < |ss[1..]| && ss[1..][j].start <= k < ss[1..][j].end;
        assert ss[j + 1] == ss[1..][j];
      }
      if j :| 0 <= j < |ss| && ss[j].start <= k < ss[j].end {
        if j > 0 {
          assert ss[1..][j - 1] == ss[j];
        }
      }
    }
  }

  lemma {:induction false} CoveredConcat(whole: seq<Sentence>, a: seq<Sentence>, b: seq<Sentence>, k: nat)
    requires whole == a + b && (Covered(a, k) || Covered(b, k))
    ensures Covered(whole, k)
    decreases |a|
  {
    if a == [] {
      assert whole == b;
    } else {
      assert whole[0] == a[0] && whole[1..] == a[1..] + b;
      if !(a[0].start <= k < a[0].end) {
        CoveredConcat(whole[1..], a[1..], b, k);
      }
    }
  }

  lemma PieceCovers(text: string, a: nat, b: nat, k: nat)
    requires a <= k < b <= |text| && !IsSpace(text[k])
    ensures Covered(Piece(text, a, b), k)
  {
    assert text[a..b][k - a] == text[k];
    BlankIsAllSpace(text[a..b]);
    assert Piece(text, a, b)[0].start == a;
  }

  lemma CoverAtEnd(text: string, p: nat, k: nat)
    requires p <= k < |text| && !IsSpace(text[k]) && NextPunct(text, p) == |text|
    ensures Covered(SentencesFrom(text, p), k)
  {
    PieceCovers(text, p, |text|, k);
    CutAtEnd(text, p);
  }

  lemma CoverInPiece(text: string, p: nat, k: nat)
    requires p <= k < |text| && !IsSpace(text[k]) && k <= NextPunct(text, p) < |text|
    ensures Covered(SentencesFrom(text, p), k)
  {
    var q := NextPunct(text, p);
    PieceCovers(text, p, q + 1, k);
    CutAtPunct(text, p, q);
    CoveredConcat(SentencesFrom(text, p), Piece(text, p, q + 1), SentencesFrom(text, q + 1), k);
  }

  lemma CoverInRest(text: string, p: nat, k: nat)
    requires p <= |text| && NextPunct(text, p) < k < |text|
    requires Covered(SentencesFrom(text, NextPunct(text, p) + 1), k)
    ensures Covered(SentencesFrom(text, p), k)
  {
    var q := NextPunct(text, p);
    CutAtPunct(text, p, q);
    CoveredConcat(SentencesFrom(text, p), Piece(text, p, q + 1), SentencesFrom(text, q + 1), k);
  }

  lemma {:induction false} SentencesCover(text: string, p: nat, k: nat)
    requires p <= k < |text| && !IsSpace(text[k])
    ensures Covered(SentencesFrom(text, p), k)
    decreases |text| - p
  {
    var q := NextPunct(text, p);
    if q == |text| {
      CoverAtEnd(text, p, k);
    } else if k <= q {
      CoverInPiece(text, p, k);
    } else {
      SentencesCover(text, q + 1, k);
      CoverInRest(text, p, k);
    }
  }
  /** No text is lost: every non-whitespace character lies inside some reported sentence. */
  lemma NothingLost(text: string, k: nat)
    requires k < |text| && !IsSpace(text[k])
    ensures exists j ::
              0 <= j < |SentencesFrom(text, 0)| && SentencesFrom(text, 0)[j].start <= k < SentencesFrom(text, 0)[j].end
  {
    var ss := SentencesFrom(text, 0);
    SentencesCover(text, 0, k);
    CoveredMeans(ss, k);
  }


  /** The texts of a list of sentences. */
  function Texts(ss: seq<Sentence>): (ts: seq<string>)
    ensures |ts| == |ss| && forall i :: 0 <= i < |ss| ==> ts[i] == ss[i].text
  {
    if ss == [] then [] else [ss[0].text] + Texts(ss[1..])
  }

  lemma TextsConcat(a: seq<Sentence>, b: seq<Sentence>)
    ensures Texts(a + b) == Texts(a) + Texts(b)
  {
  }

  /**
   * `re.split(r'(。|！|？)', s)`: the pieces between marks with each mark kept as a piece of
   * its own, so `k` marks give `2k + 1` pieces.
   */
  function ReSplit(s: string): seq<string>
  {
    ReSplitFrom(s, 0)
  }

  /** The pieces `re.split` produces for `text[p..]`. */
  function ReSplitFrom(text: string, p: nat): seq<string>
    requires p <= |text|
    decreases |text| - p
  {
    var q := NextPunct(text, p);
    if q == |text| then [text[p..]] else [text[p..q], [text[q]]] + ReSplitFrom(text, q + 1)
  }

  function Concat(parts: seq<string>): string
  {
    if parts == [] then [] else parts[0] + Concat(parts[1..])
  }

  /** Splitting loses nothing: the pieces put back together are the text. */
  lemma {:induction false} ReSplitLosesNothing(text: string, p: nat)
    requires p <= |text|
    ensures Concat(ReSplitFrom(text, p)) == text[p..]
    decreases |text| - p
  {
    var q := NextPunct(text, p);
    var parts := ReSplitFrom(text, p);
    if q == |text| {
      assert Concat(parts) == text[p..] + Concat([]);
    } else {
      ReSplitLosesNothing(text, q + 1);
      assert parts[1..] == [[text[q]]] + ReSplitFrom(text, q + 1);
      assert parts[1..][1..] == ReSplitFrom(text, q + 1);
      assert text[p..] == text[p..q] + [text[q]] + text[q + 1..];
    }
  }

  /** Pieces at odd positions are single marks; pieces at even positions hold no mark. */
  ghost predicate Alternates(parts: seq<string>)
  {
    forall i :: 0 <= i < |parts| ==>
      if i % 2 == 1 then |parts[i]| == 1 && IsPunct(parts[i][0])
      else forall j :: 0 <= j < |parts[i]| ==> !IsPunct(parts[i][j])
  }

  lemma {:induction false} ReSplitAlternates(text: string, p: nat)
    requires p <= |text|
    ensures |ReSplitFrom(text, p)| % 2 == 1
    ensures Alternates(ReSplitFrom(text, p))
    decreases |text| - p
  {
    var q := NextPunct(text, p);
    NextPunctSkips(text, p);
    NextPunctFinds(text, p);
    var parts := ReSplitFrom(text, p);
    if q == |text| {
      assert parts == [text[p..]];
    } else {
      ReSplitAlternates(text, q + 1);
      var rest := ReSplitFrom(text, q + 1);
      assert parts == [text[p..q], [text[q]]] + rest;
      forall i | 0 <= i < |parts|
        ensures if i % 2 == 1 then |parts[i]| == 1 && IsPunct(parts[i][0])
                else forall j :: 0 <= j < |parts[i]| ==> !IsPunct(parts[i][j])
      {
        if i >= 2 {
          assert parts[i] == rest[i - 2];
        }
      }
    }
  }

  function KeepText(s: string): seq<string>
  {
    if IsBlank(s) then [] else [s]
  }

  /** Each piece joined with the mark after it, blank results dropped. */
  function Joined(parts: seq<string>): seq<string>
    decreases |parts|
  {
    if parts == [] then []
    else if |parts| == 1 then KeepText(parts[0])
    else KeepText(parts[0] + parts[1]) + Joined(parts[2..])
  }

  lemma JoinedStep(a: string, b: string, rest: seq<string>)
    ensures Joined([a, b] + rest) == KeepText(a + b) + Joined(rest)
  {
    var parts := [a, b] + rest;
    assert parts[0] == a && parts[1] == b && parts[2..] == rest;
  }

  lemma PieceTexts(text: string, a: nat, b: nat)
    requires a <= b <= |text|
    ensures Texts(Piece(text, a, b)) == KeepText(text[a..b])
  {
  }

  lemma SplitAgreesAtEnd(text: string, p: nat)
    requires p <= |text| && NextPunct(text, p) == |text|
    ensures Joined(ReSplitFrom(text, p)) == Texts(SentencesFrom(text, p))
  {
    assert Joined([text[p..]]) == KeepText(text[p..]);
    if p < |text| {
      assert text[p..|text|] == text[p..];
      CutAtEnd(text, p);
      PieceTexts(text, p, |text|);
    }
  }

  lemma SplitAgreesAtMark(text: string, p: nat)
    requires p < |text| && NextPunct(text, p) < |text|
    requires Joined(ReSplitFrom(text, NextPunct(text, p) + 1)) == Texts(SentencesFrom(text, NextPunct(text, p) + 1))
    ensures Joined(ReSplitFrom(text, p)) == Texts(SentencesFrom(text, p))
  {
    var q := NextPunct(text, p);
    JoinedStep(text[p..q], [text[q]], ReSplitFrom(text, q + 1));
    assert text[p..q] + [text[q]] == text[p..q + 1];
    var head, rest := Piece(text, p, q + 1), SentencesFrom(text, q + 1);
    PieceTexts(text, p, q + 1);
    CutAtPunct(text, p, q);
    TextsConcat(head, rest);
  }

  lemma JoinedFrom(done: seq<string>, parts: seq<string>, i: nat, all: seq<string>)
    requires i < |parts| && done + Joined(parts[i..]) == all
    ensures i + 1 < |parts| ==> (done + KeepText(parts[i] + parts[i + 1])) + Joined(parts[i + 2..]) == all
    ensures i + 1 == |parts| ==> done + KeepText(parts[i]) == all
  {
    var rest := parts[i..];
    if i + 1 < |parts| {
      assert rest[0] == parts[i] && rest[1] == parts[i + 1] && rest[2..] == parts[i + 2..];
      Associative(done, KeepText(parts[i] + parts[i + 1]), Joined(parts[i + 2..]));
    } else {
      assert rest == [parts[i]];
    }
  }

  /**
   * `split_sentences_by_punctuation`: split with `re.split`, then join each piece with the mark
   * after it, keeping the joined sentence when it is not blank.
   */
  method SplitSentencesByPunctuation(text: string) returns (result: seq<string>)
    ensures result == Texts(SentencesFrom(text, 0))
  {
    var sentences := ReSplit(text);
    result := [];
    ghost var all := Joined(sentences);
    var i := 0;
    while i < |sentences|
      invariant i % 2 == 0 && i <= |sentences| + 1
      invariant i <= |sentences| ==> result + Joined(sentences[i..]) == all
      invariant i > |sentences| ==> result == all
    {
      var sentence := sentences[i];
      if i + 1 < |sentences| {
        sentence := sentence + sentences[i + 1];
      }
      JoinedFrom(result, sentences, i, all);
      result := result + KeepText(sentence);
      i := i + 2;
    }
    SplitAgrees(text, 0);
  }

  /** Both splitters produce the same sentence texts. */
  lemma {:induction false} SplitAgrees(text: string, p: nat)
    requires p <= |text|
    ensures Joined(ReSplitFrom(text, p)) == Texts(SentencesFrom(text, p))
    decreases |text| - p
  {
    var q := NextPunct(text, p);
    if q == |text| {
      SplitAgreesAtEnd(text, p);
    } else {
      SplitAgrees(text, q + 1);
      SplitAgreesAtMark(text, p);
    }
  }
}
