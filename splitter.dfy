/**
 * Segment records and key assignment (`AudioSplitter.assign_indices`), and the splitter's
 * view of the output directory as a set of file names.
 */
module Splitter {
  import opened Wrappers
  import opened Keys
  import opened Naming
  import opened Sorting

  /**
   * A segment record: its times in seconds, its text, its key when it has one, and the file
   * name it was exported under ("" when the record has none; Python treats a missing and an
   * empty `filename` alike).
   */
  datatype Segment = Segment(start: real, end: real, text: string, index: Option<nat>, sub: Option<nat>, filename: string)

  /** One `id -> segment` pair of an insertion-ordered dictionary. */
  datatype Entry = Entry(id: string, seg: Segment)

  function StartOf(e: Entry): real
  {
    e.seg.start
  }

  /** A segment whose key is fixed: it has an `index` and a non-empty `filename`. */
  predicate IsConfirmed(s: Segment)
  {
    s.index.Some? && s.filename != ""
  }

  /** The key `(index, index_sub or 0)` of a keyed segment. */
  function KeyOf(s: Segment): Key
    requires s.index.Some?
  {
    Key(s.index.value, SubOf(s.sub))
  }

  /** The same segment apart from its key. */
  predicate SameContent(a: Segment, b: Segment)
  {
    a.start == b.start && a.end == b.end && a.text == b.text && a.filename == b.filename
  }

  // ---------------------------------------------------------------------------
  // Confirmed keys of the previous export
  // ---------------------------------------------------------------------------

  /** A confirmed key with the start time of its segment. */
  datatype Anchor = Anchor(start: real, key: Key)

  function AnchorStart(a: Anchor): real
  {
    a.start
  }

  function AnchorOf(s: Segment): Anchor
    requires s.index.Some?
  {
    Anchor(s.start, KeyOf(s))
  }

  /** The confirmed segments of `existing`, in dictionary order, as anchors. */
  function Anchors(existing: seq<Entry>): seq<Anchor>
  {
    if existing == [] then []
    else
      var last := existing[|existing| - 1].seg;
      Anchors(existing[..|existing| - 1]) + (if IsConfirmed(last) then [AnchorOf(last)] else [])
  }

  /** The confirmed anchors sorted by start time (`confirmed.sort(key=start)`). */
  function Confirmed(existing: seq<Entry>): seq<Anchor>
  {
    SortBy(Anchors(existing), AnchorStart)
  }

  lemma {:induction false} AnchorsExactly(existing: seq<Entry>)
    ensures forall a :: a in Anchors(existing) <==>
              exists e :: e in existing && IsConfirmed(e.seg) && a == AnchorOf(e.seg)
    decreases |existing|
  {
    if existing != [] {
      var init, last := existing[..|existing| - 1], existing[|existing| - 1];
      AnchorsExactly(init);
      assert existing == init + [last];
      forall a | exists e :: e in existing && IsConfirmed(e.seg) && a == AnchorOf(e.seg)
        ensures a in Anchors(existing)
      {
        var e :| e in existing && IsConfirmed(e.seg) && a == AnchorOf(e.seg);
        if e != last {
          assert e in init;
        }
      }
    }
  }

  /**
   * The anchors are exactly the confirmed segments of the previous export, with an absent
   * `index_sub` read as 0, and they are in start order.
   */
  lemma ConfirmedExactly(existing: seq<Entry>)
    ensures forall a :: a in Confirmed(existing) <==>
              exists e :: e in existing && IsConfirmed(e.seg) && a == AnchorOf(e.seg)
    ensures SortedBy(Confirmed(existing), AnchorStart)
  {
    AnchorsExactly(existing);
    SortBySorted(Anchors(existing), AnchorStart);
    var c := Confirmed(existing);
    forall a
      ensures a in c <==> a in Anchors(existing)
    {
      assert a in c <==> a in multiset(c);
      assert a in Anchors(existing) <==> a in multiset(Anchors(existing));
    }
  }

  // ---------------------------------------------------------------------------
  // Neighbours of a segment that needs a key
  // ---------------------------------------------------------------------------

  /**
   * The scan over the confirmed anchors from position `j`: `before` takes the key of every
   * anchor starting earlier, and the first anchor starting later gives `after` and ends the scan.
   */
  function ScanConfirmed(confirmed: seq<Anchor>, s: real, j: nat, before: Option<Key>): (Option<Key>, Option<Key>)
    requires j <= |confirmed|
    decreases |confirmed| - j
  {
    if j == |confirmed| then (before, None)
    else if confirmed[j].start < s then ScanConfirmed(confirmed, s, j + 1, Some(confirmed[j].key))
    else if confirmed[j].start > s then (before, Some(confirmed[j].key))
    else ScanConfirmed(confirmed, s, j + 1, before)
  }

  /** The key of the last anchor that starts before `s`. */
  function LastBefore(c: seq<Anchor>, s: real): Option<Key>
  {
    if c == [] then None
    else if c[|c| - 1].start < s then Some(c[|c| - 1].key)
    else LastBefore(c[..|c| - 1], s)
  }

  /** The key of the first anchor that starts after `s`. */
  function FirstAfter(c: seq<Anchor>, s: real): Option<Key>
  {
    if c == [] then None
    else if c[0].start > s then Some(c[0].key)
    else FirstAfter(c[1..], s)
  }

  lemma {:induction false} LastBeforeIgnoresLater(c: seq<Anchor>, s: real, j: nat, k: nat)
    requires j <= k <= |c|
    requires forall i :: j <= i < |c| ==> c[i].start >= s
    ensures LastBefore(c[..k], s) == LastBefore(c[..j], s)
    decreases k - j
  {
    if k > j {
      assert c[..k][..k - 1] == c[..k - 1];
      LastBeforeIgnoresLater(c, s, j, k - 1);
    }
  }

  lemma {:induction false} ScanFrom(c: seq<Anchor>, s: real, j: nat)
    requires SortedBy(c, AnchorStart) && j <= |c|
    requires forall i :: 0 <= i < j ==> c[i].start <= s
    ensures ScanConfirmed(c, s, j, LastBefore(c[..j], s)) == (LastBefore(c, s), FirstAfter(c[j..], s))
    decreases |c| - j
  {
    if j == |c| {
      assert c[..j] == c;
    } else {
      assert c[..j + 1][..j] == c[..j];
      assert c[j..][1..] == c[j + 1..];
      if c[j].start > s {
        assert forall i :: j <= i < |c| ==> AnchorStart(c[j]) <= AnchorStart(c[i]);
        LastBeforeIgnoresLater(c, s, j, |c|);
        assert c[..|c|] == c;
      } else {
        ScanFrom(c, s, j + 1);
      }
    }
  }

  /**
   * Over anchors in start order, the scan finds the key of the last anchor starting before the
   * segment and the key of the first anchor starting after it.
   */
  lemma ScanFindsNeighbours(c: seq<Anchor>, s: real)
    requires SortedBy(c, AnchorStart)
    ensures ScanConfirmed(c, s, 0, None) == (LastBefore(c, s), FirstAfter(c, s))
  {
    ScanFrom(c, s, 0);
    assert c[0..] == c;
  }

  /**
   * The pass over the segments already given keys from position `j`: a keyed one starting
   * earlier replaces `before` when its key is larger, one starting later replaces `after`
   * when its key is smaller.
   */
  function Tighten(done: seq<Entry>, s: real, j: nat, before: Option<Key>, after: Option<Key>): (Option<Key>, Option<Key>)
    requires j <= |done|
    decreases |done| - j
  {
    if j == |done| then (before, after)
    else
      var r := done[j].seg;
      if r.index.None? then Tighten(done, s, j + 1, before, after)
      else if r.start < s then
        Tighten(done, s, j + 1, if before.None? || Less(before.value, KeyOf(r)) then Some(KeyOf(r)) else before, after)
      else if r.start > s then
        Tighten(done, s, j + 1, before, if after.None? || Less(KeyOf(r), after.value) then Some(KeyOf(r)) else after)
      else Tighten(done, s, j + 1, before, after)
  }

  /** A keyed segment that starts before `s`. */
  predicate KeyedBefore(r: Segment, s: real)
  {
    r.index.Some? && r.start < s
  }

  /** A keyed segment that starts after `s`. */
  predicate KeyedAfter(r: Segment, s: real)
  {
    r.index.Some? && r.start > s
  }

  /**
   * The larger key wins for `before` and the smaller for `after`: the results bound the keys
   * they started from and every key seen on the matching side, and each is one of those keys.
   */
  lemma {:induction false} TightenBounds(done: seq<Entry>, s: real, j: nat, before: Option<Key>, after: Option<Key>)
    requires j <= |done|
    ensures var (b, a) := Tighten(done, s, j, before, after);
      (before.Some? ==> b.Some? && !Less(b.value, before.value))
      && (after.Some? ==> a.Some? && !Less(after.value, a.value))
      && (forall i :: j <= i < |done| && KeyedBefore(done[i].seg, s) ==> b.Some? && !Less(b.value, KeyOf(done[i].seg)))
      && (forall i :: j <= i < |done| && KeyedAfter(done[i].seg, s) ==> a.Some? && !Less(KeyOf(done[i].seg), a.value))
      && (b == before || exists i :: j <= i < |done| && KeyedBefore(done[i].seg, s) && b == Some(KeyOf(done[i].seg)))
      && (a == after || exists i :: j <= i < |done| && KeyedAfter(done[i].seg, s) && a == Some(KeyOf(done[i].seg)))
    decreases |done| - j
  {
    if j < |done| {
      var r := done[j].seg;
      if r.index.None? {
        TightenBounds(done, s, j + 1, before, after);
      } else if r.start < s {
        TightenBounds(done, s, j + 1, if before.None? || Less(before.value, KeyOf(r)) then Some(KeyOf(r)) else before, after);
      } else if r.start > s {
        TightenBounds(done, s, j + 1, before, if after.None? || Less(KeyOf(r), after.value) then Some(KeyOf(r)) else after);
      } else {
        TightenBounds(done, s, j + 1, before, after);
      }
    }
  }

  /** The neighbours of a segment starting at `s`: the confirmed scan, tightened by the keys given so far. */
  function Neighbours(confirmed: seq<Anchor>, done: seq<Entry>, s: real): (Option<Key>, Option<Key>)
  {
    var (b, a) := ScanConfirmed(confirmed, s, 0, None);
    Tighten(done, s, 0, b, a)
  }

  // ---------------------------------------------------------------------------
  // assign_indices
  // ---------------------------------------------------------------------------

  /** `determine_index(before, after)` with `l = 1`; a sub-key of 0 is stored as `None`. */
  function Allocate(seg: Segment, confirmed: seq<Anchor>, done: seq<Entry>, d: nat): (r: Segment)
    ensures SameContent(r, seg) && r.index.Some? && r.sub != Some(0)
    ensures var (b, a) := Neighbours(confirmed, done, seg.start);
            KeyOf(r) == DetermineIndex(b, a, 1, d)
  {
    var (b, a) := Neighbours(confirmed, done, seg.start);
    var k := DetermineIndex(b, a, 1, d);
    seg.(index := Some(k.index), sub := if k.sub != 0 then Some(k.sub) else None)
  }

  /** A confirmed segment is copied unchanged; any other gets a newly allocated key. */
  function AssignOne(e: Entry, confirmed: seq<Anchor>, done: seq<Entry>, d: nat): (r: Entry)
    ensures r.id == e.id && SameContent(r.seg, e.seg) && r.seg.index.Some?
    ensures IsConfirmed(e.seg) ==> r == e
  {
    if IsConfirmed(e.seg) then e else Entry(e.id, Allocate(e.seg, confirmed, done, d))
  }

  /** The first `n` results of the pass over the sorted segments. */
  function Assigned(sorted: seq<Entry>, confirmed: seq<Anchor>, d: nat, n: nat): (out: seq<Entry>)
    requires n <= |sorted|
    ensures |out| == n
  {
    if n == 0 then []
    else
      var done := Assigned(sorted, confirmed, d, n - 1);
      done + [AssignOne(sorted[n - 1], confirmed, done, d)]
  }

  lemma AssignedNext(sorted: seq<Entry>, confirmed: seq<Anchor>, d: nat, n: nat)
    requires n < |sorted|
    ensures Assigned(sorted, confirmed, d, n + 1)
            == Assigned(sorted, confirmed, d, n) + [AssignOne(sorted[n], confirmed, Assigned(sorted, confirmed, d, n), d)]
  {
  }

  /** `assign_indices(segments, existing_segments, index_sub_digits)`. */
  function AssignSpec(segments: seq<Entry>, existing: seq<Entry>, d: nat): seq<Entry>
  {
    Assigned(SortBy(segments, StartOf), Confirmed(existing), d, |segments|)
  }

  lemma {:induction false} AssignedPrefix(sorted: seq<Entry>, confirmed: seq<Anchor>, d: nat, n: nat, m: nat)
    requires m <= n <= |sorted|
    ensures Assigned(sorted, confirmed, d, n)[..m] == Assigned(sorted, confirmed, d, m)
    decreases n - m
  {
    if m < n {
      AssignedPrefix(sorted, confirmed, d, n - 1, m);
      var out := Assigned(sorted, confirmed, d, n);
      assert out[..n - 1] == Assigned(sorted, confirmed, d, n - 1);
      assert out[..m] == out[..n - 1][..m];
    }
  }

  /** Each result is decided from its segment and the results before it. */
  lemma AssignedAt(sorted: seq<Entry>, confirmed: seq<Anchor>, d: nat, n: nat, i: nat)
    requires i < n <= |sorted|
    ensures Assigned(sorted, confirmed, d, n)[i]
            == AssignOne(sorted[i], confirmed, Assigned(sorted, confirmed, d, n)[..i], d)
  {
    AssignedPrefix(sorted, confirmed, d, n, i + 1);
    AssignedPrefix(sorted, confirmed, d, n, i);
    var out := Assigned(sorted, confirmed, d, n);
    assert out[i] == out[..i + 1][i];
  }

  /** Every result of the pass, decided from its segment and the results before it. */
  lemma AssignSpecSteps(segments: seq<Entry>, existing: seq<Entry>, d: nat)
    ensures var out, sorted := AssignSpec(segments, existing, d), SortBy(segments, StartOf);
      forall i :: 0 <= i < |out| ==> out[i] == AssignOne(sorted[i], Confirmed(existing), out[..i], d)
  {
    var out, sorted := AssignSpec(segments, existing, d), SortBy(segments, StartOf);
    forall i | 0 <= i < |out|
      ensures out[i] == AssignOne(sorted[i], Confirmed(existing), out[..i], d)
    {
      AssignedAt(sorted, Confirmed(existing), d, |segments|, i);
    }
  }

  /**
   * `assign_indices` returns one copy of every segment, in start order: the i-th result has
   * the id and content of the i-th segment by start time, and a key.
   */
  lemma AssignSpecCopies(segments: seq<Entry>, existing: seq<Entry>, d: nat)
    ensures var out, sorted := AssignSpec(segments, existing, d), SortBy(segments, StartOf);
      |out| == |segments| && multiset(sorted) == multiset(segments) && SortedBy(out, StartOf)
      && (forall i :: 0 <= i < |out| ==>
            out[i].id == sorted[i].id && SameContent(out[i].seg, sorted[i].seg) && out[i].seg.index.Some?)
  {
    var out, sorted := AssignSpec(segments, existing, d), SortBy(segments, StartOf);
    forall i | 0 <= i < |out|
      ensures out[i].id == sorted[i].id && SameContent(out[i].seg, sorted[i].seg) && out[i].seg.index.Some?
    {
      AssignedAt(sorted, Confirmed(existing), d, |segments|, i);
    }
    SortBySorted(segments, StartOf);
    forall i, j | 0 <= i < j < |out|
      ensures StartOf(out[i]) <= StartOf(out[j])
    {
      assert StartOf(sorted[i]) <= StartOf(sorted[j]);
    }
  }

  /**
   * A confirmed segment is returned unchanged; every other one gets the key
   * `determine_index(before, after)` of its neighbours, with a sub-key of 0 stored as `None`.
   */
  lemma AssignSpecKeys(segments: seq<Entry>, existing: seq<Entry>, d: nat)
    ensures var out, sorted := AssignSpec(segments, existing, d), SortBy(segments, StartOf);
      (forall i :: 0 <= i < |out| && IsConfirmed(sorted[i].seg) ==> out[i] == sorted[i])
      && (forall i :: 0 <= i < |out| && !IsConfirmed(sorted[i].seg) ==>
            out[i].seg.index.Some? && out[i].seg.sub != Some(0) &&
            var (b, a) := Neighbours(Confirmed(existing), out[..i], sorted[i].seg.start);
            KeyOf(out[i].seg) == DetermineIndex(b, a, 1, d))
  {
    AssignSpecSteps(segments, existing, d);
  }

  /** Start times strictly increasing along the sequence. */
  predicate StrictlyIncreasing(s: seq<Entry>)
  {
    forall i, j :: 0 <= i < j < |s| ==> s[i].seg.start < s[j].seg.start
  }

  /** Keys `(1, None), (2, None), ...` in order, all starting before `s`. */
  predicate NumberedBefore(done: seq<Entry>, s: real)
  {
    forall i :: 0 <= i < |done| ==> done[i].seg.index == Some(i + 1) && done[i].seg.sub.None? && done[i].seg.start < s
  }

  lemma {:induction false} TightenNumbered(done: seq<Entry>, s: real, j: nat)
    requires j <= |done| && NumberedBefore(done, s)
    ensures Tighten(done, s, j, if j == 0 then None else Some(Key(j, 0)), None)
            == (if |done| == 0 then None else Some(Key(|done|, 0)), None)
    decreases |done| - j
  {
    if j < |done| {
      assert KeyOf(done[j].seg) == Key(j + 1, 0);
      TightenNumbered(done, s, j + 1);
    }
  }

  /** With nothing confirmed and `1..k` given to earlier segments, the next segment gets `k + 1`. */
  lemma NumberedNext(done: seq<Entry>, e: Entry, d: nat)
    requires NumberedBefore(done, e.seg.start) && !IsConfirmed(e.seg)
    ensures AssignOne(e, [], done, d) == Entry(e.id, e.seg.(index := Some(|done| + 1), sub := None))
  {
    var s := e.seg.start;
    TightenNumbered(done, s, 0);
    assert ScanConfirmed([], s, 0, None) == (None, None);
    var b := if |done| == 0 then None else Some(Key(|done|, 0));
    assert Neighbours([], done, s) == (b, None);
    assert DetermineIndex(b, None, 1, d) == Key(|done| + 1, 0);
  }

  lemma {:induction false} NumberedPrefix(sorted: seq<Entry>, d: nat, n: nat)
    requires n <= |sorted| && StrictlyIncreasing(sorted)
    requires forall i :: 0 <= i < |sorted| ==> !IsConfirmed(sorted[i].seg)
    ensures var out := Assigned(sorted, [], d, n);
      forall i :: 0 <= i < n ==>
                  out[i].id == sorted[i].id && out[i].seg.start == sorted[i].seg.start
                  && out[i].seg.index == Some(i + 1) && out[i].seg.sub.None?
    decreases n
  {
    if n > 0 {
      NumberedPrefix(sorted, d, n - 1);
      var done := Assigned(sorted, [], d, n - 1);
      var e := sorted[n - 1];
      assert NumberedBefore(done, e.seg.start) by {
        forall i | 0 <= i < |done|
          ensures done[i].seg.start < e.seg.start
        {
          assert sorted[i].seg.start < sorted[n - 1].seg.start;
        }
      }
      NumberedNext(done, e, d);
      var out := Assigned(sorted, [], d, n);
      assert out == done + [AssignOne(e, [], done, d)];
      forall i | 0 <= i < n
        ensures out[i].id == sorted[i].id && out[i].seg.start == sorted[i].seg.start
                && out[i].seg.index == Some(i + 1) && out[i].seg.sub.None?
      {
        if i < n - 1 {
          assert out[i] == done[i];
        }
      }
    }
  }

  lemma {:induction false} NoAnchors(existing: seq<Entry>)
    requires forall i :: 0 <= i < |existing| ==> !IsConfirmed(existing[i].seg)
    ensures Anchors(existing) == []
    decreases |existing|
  {
    if existing != [] {
      NoAnchors(existing[..|existing| - 1]);
    }
  }

  /**
   * With no confirmed segment on either side and distinct start times, `assign_indices`
   * numbers the segments 1, 2, 3, ... in start order, all without a sub-key.
   */
  lemma SequentialKeys(segments: seq<Entry>, existing: seq<Entry>, d: nat)
    requires StrictlyIncreasing(segments)
    requires forall i :: 0 <= i < |segments| ==> !IsConfirmed(segments[i].seg)
    requires forall i :: 0 <= i < |existing| ==> !IsConfirmed(existing[i].seg)
    ensures var out := AssignSpec(segments, existing, d);
      |out| == |segments| &&
      forall i :: 0 <= i < |out| ==> out[i].id == segments[i].id && out[i].seg.index == Some(i + 1) && out[i].seg.sub.None?
  {
    assert SortedBy(segments, StartOf);
    SortBySortedIdentity(segments, StartOf);
    NoAnchors(existing);
    NumberedPrefix(segments, d, |segments|);
  }

  /**
   * Two segments without keys that start at the same time are both given the key `(1, None)`
   * when nothing is confirmed: a segment starting at the same time as a keyed one counts as
   * neither before nor after it.
   */
  lemma EqualStartsShareKey(a: Entry, b: Entry, d: nat)
    requires a.seg.start == b.seg.start && !IsConfirmed(a.seg) && !IsConfirmed(b.seg)
    ensures var out := AssignSpec([a, b], [], d);
      |out| == 2 && out[0].seg.index == out[1].seg.index == Some(1) && out[0].seg.sub == out[1].seg.sub == None
  {
    assert SortedBy([a, b], StartOf);
    SortBySortedIdentity([a, b], StartOf);
    NoAnchors([]);
    var first := Assigned([a, b], [], d, 1);
    assert first[0].seg.index == Some(1);
    assert Tighten(first, b.seg.start, 0, None, None) == (None, None);
  }

  // ---------------------------------------------------------------------------
  // File names
  // ---------------------------------------------------------------------------

  /**
   * `generate_filename(seg, index_digits, index_sub_digits)`: the name ends with the audio
   * file's extension and encodes the segment's key.
   */
  function SegmentFilename(seg: Segment, extension: string, maxLength: Option<int>, indexDigits: nat, subDigits: nat): (name: string)
    requires seg.index.Some?
    ensures EndsWith(name, DotExtension(extension))
    ensures ParseFilenameKey(name) == Some(KeyOf(seg))
  {
    FilenameEncodesKey(seg.index.value, seg.sub, seg.text, extension, indexDigits, subDigits, maxLength);
    FormatIndexFilename(seg.index.value, seg.sub, seg.text, extension, indexDigits, subDigits, maxLength)
  }

  /** The record `split_and_save` writes for the segment at position `i`. */
  function SavedRecord(seg: Segment, i: nat, extension: string, maxLength: Option<int>, indexDigits: nat): (r: Segment)
    ensures IsConfirmed(r)
    ensures ParseFilenameKey(r.filename) == Some(Key(i + 1, 0))
  {
    FilenameEncodesKey(i + 1, None, seg.text, extension, indexDigits, 3, maxLength);
    var name := FormatIndexFilename(i + 1, None, seg.text, extension, indexDigits, 3, maxLength);
    Segment(seg.start, seg.end, seg.text, Some(i + 1), None, name)
  }

  /** `f` applied to every element of `s` together with its position. */
  function MapWithIndex<A, B>(s: seq<A>, f: (A, nat) -> B): (r: seq<B>)
    ensures |r| == |s|
    ensures forall i :: 0 <= i < |s| ==> r[i] == f(s[i], i)
  {
    if s == [] then []
    else
      var n := |s| - 1;
      var prefix := MapWithIndex(s[..n], f);
      assert forall i :: 0 <= i < n ==> prefix[i] == f(s[i], i);
      prefix + [f(s[n], n)]
  }

  lemma MapWithIndexSnoc<A, B>(s: seq<A>, x: A, f: (A, nat) -> B)
    ensures MapWithIndex(s + [x], f) == MapWithIndex(s, f) + [f(x, |s|)]
  {
    assert (s + [x])[..|s|] == s;
  }

  /** The records `split_and_save` returns, one per segment, in order. */
  function SavedMetadata(segments: seq<Segment>, extension: string, maxLength: Option<int>, indexDigits: nat): (m: seq<Segment>)
    ensures |m| == |segments|
  {
    MapWithIndex(segments, RecordAt(extension, maxLength, indexDigits))
  }

  function RecordAt(extension: string, maxLength: Option<int>, indexDigits: nat): (Segment, nat) -> Segment
  {
    (seg: Segment, i: nat) => SavedRecord(seg, i, extension, maxLength, indexDigits)
  }

  /** The file names of some records. */
  function Names(m: seq<Segment>): set<string>
  {
    if m == [] then {} else Names(m[..|m| - 1]) + {m[|m| - 1].filename}
  }

  lemma NamesSnoc(m: seq<Segment>, record: Segment)
    ensures Names(m + [record]) == Names(m) + {record.filename}
  {
    assert (m + [record])[..|m|] == m;
  }

  /** One more segment saved: its record is appended. */
  lemma SavedMetadataStep(segments: seq<Segment>, i: nat, extension: string, maxLength: Option<int>, indexDigits: nat)
    requires i < |segments|
    ensures SavedMetadata(segments[..i + 1], extension, maxLength, indexDigits)
            == SavedMetadata(segments[..i], extension, maxLength, indexDigits) + [SavedRecord(segments[i], i, extension, maxLength, indexDigits)]
  {
    assert segments[..i + 1] == segments[..i] + [segments[i]];
    MapWithIndexSnoc(segments[..i], segments[i], RecordAt(extension, maxLength, indexDigits));
  }

  /**
   * `split_and_save` numbers its input 1, 2, 3, ... in order, keeps each segment's times and
   * text, and gives every segment a distinct file name, so it never overwrites its own output
   * and every record it writes is confirmed.
   */
  lemma SavedMetadataNumbered(segments: seq<Segment>, extension: string, maxLength: Option<int>, indexDigits: nat)
    ensures var m := SavedMetadata(segments, extension, maxLength, indexDigits);
      (forall i :: 0 <= i < |m| ==>
         m[i].index == Some(i + 1) && m[i].sub.None? && IsConfirmed(m[i])
         && m[i].start == segments[i].start && m[i].end == segments[i].end && m[i].text == segments[i].text)
      && (forall i, j :: 0 <= i < j < |m| ==> m[i].filename != m[j].filename)
  {
    var m := SavedMetadata(segments, extension, maxLength, indexDigits);
    assert forall i :: 0 <= i < |m| ==> m[i] == SavedRecord(segments[i], i, extension, maxLength, indexDigits);
    forall i, j | 0 <= i < j < |m|
      ensures m[i].filename != m[j].filename
    {
      assert ParseFilenameKey(m[i].filename) == Some(Key(i + 1, 0));
      assert ParseFilenameKey(m[j].filename) == Some(Key(j + 1, 0));
    }
  }

  function MaxReal(a: real, b: real): real
  {
    if a >= b then a else b
  }

  function MinReal(a: real, b: real): real
  {
    if a <= b then a else b
  }

  // ---------------------------------------------------------------------------
  // The splitter and its output directory
  // ---------------------------------------------------------------------------

  /**
   * An `AudioSplitter`: the audio file's extension and length, the clip margins, the limit on
   * the text part of file names, and the names of the files in the output directory, which
   * the file operations change. Decoding and encoding audio are not modelled.
   */
  class AudioSplitter {
    /** The audio file's suffix (`audio_path.suffix`). */
    const extension: string
    /** `max_filename_length`; `None` for no limit. */
    const maxFilenameLength: Option<int>
    /** Margins in milliseconds. */
    const marginBefore: real
    const marginAfter: real
    /** `len(audio)`, in milliseconds. */
    const audioDuration: nat
    /** The names of the files in the output directory. */
    var files: set<string>

    /** Margins are given in seconds (by default 0.1 and 0.2) and kept in milliseconds. */
    constructor (extension: string, audioDuration: nat, files: set<string>,
                 marginBefore: real, marginAfter: real, maxFilenameLength: Option<int>)
      ensures this.extension == extension && this.audioDuration == audioDuration && this.files == files
      ensures this.marginBefore == marginBefore * 1000.0 && this.marginAfter == marginAfter * 1000.0
      ensures this.maxFilenameLength == maxFilenameLength
    {
      this.extension := extension;
      this.audioDuration := audioDuration;
      this.files := files;
      this.marginBefore := marginBefore * 1000.0;
      this.marginAfter := marginAfter * 1000.0;
      this.maxFilenameLength := maxFilenameLength;
    }

    /**
     * Where a clip starts, in milliseconds: the segment start less the margin, but never before
     * the start of the audio; with a non-negative margin never after the segment starts.
     */
    function ClipStart(start: real): (ms: real)
      ensures ms >= 0.0 && ms >= start * 1000.0 - marginBefore
      ensures ms == 0.0 || ms == start * 1000.0 - marginBefore
      ensures marginBefore >= 0.0 && start >= 0.0 ==> ms <= start * 1000.0
    {
      MaxReal(0.0, start * 1000.0 - marginBefore)
    }

    /**
     * Where a clip ends, in milliseconds: the segment end plus the margin, but never past the
     * end of the audio; with a non-negative margin never before a segment end that lies within
     * the audio.
     */
    function ClipEnd(end: real): (ms: real)
      ensures ms <= audioDuration as real && ms <= end * 1000.0 + marginAfter
      ensures ms == audioDuration as real || ms == end * 1000.0 + marginAfter
      ensures marginAfter >= 0.0 && end * 1000.0 <= audioDuration as real ==> ms >= end * 1000.0
    {
      MinReal(audioDuration as real, end * 1000.0 + marginAfter)
    }

    /** `generate_filename`: the segment's name, without exporting anything. */
    method GenerateFilename(seg: Segment, indexDigits: nat, subDigits: nat) returns (name: string)
      requires seg.index.Some?
      ensures name == SegmentFilename(seg, extension, maxFilenameLength, indexDigits, subDigits)
    {
      name := FormatIndexFilename(seg.index.value, seg.sub, seg.text, extension, indexDigits, subDigits, maxFilenameLength);
    }

    /**
     * `export_segment`: writes the clip `[ClipStart(start), ClipEnd(end))` under the name
     * `generate_filename` gives the segment, and returns that name.
     */
    method ExportSegment(seg: Segment, indexDigits: nat, subDigits: nat) returns (name: string, startMs: real, endMs: real)
      requires seg.index.Some?
      modifies this
      ensures name == SegmentFilename(seg, extension, maxFilenameLength, indexDigits, subDigits)
      ensures startMs == ClipStart(seg.start) && endMs == ClipEnd(seg.end)
      ensures files == old(files) + {name}
    {
      startMs := ClipStart(seg.start);
      endMs := ClipEnd(seg.end);
      name := FormatIndexFilename(seg.index.value, seg.sub, seg.text, extension, indexDigits, subDigits, maxFilenameLength);
      files := files + {name};
    }

    /** `rename_file`: succeeds exactly when the old file exists; the new name replaces it. */
    method RenameFile(oldName: string, newName: string) returns (ok: bool)
      modifies this
      ensures ok == (oldName in old(files))
      ensures files == if ok then old(files) - {oldName} + {newName} else old(files)
    {
      if oldName in files {
        files := files - {oldName} + {newName};
        ok := true;
      } else {
        ok := false;
      }
    }

    /** `delete_file`: succeeds exactly when the file exists; afterwards it is gone. */
    method DeleteFile(name: string) returns (ok: bool)
      modifies this
      ensures ok == (name in old(files))
      ensures files == old(files) - {name}
    {
      if name in files {
        files := files - {name};
        ok := true;
      } else {
        ok := false;
      }
    }

    /**
     * `split_and_save`: numbers the segments 1, 2, 3, ... in order and exports each one; the
     * index width defaults to `calculate_index_digits` of the segment count.
     */
    method SplitAndSave(segments: seq<Segment>, indexDigits: Option<nat>) returns (metadata: seq<Segment>)
      modifies this
      ensures metadata == SavedMetadata(segments, extension, maxFilenameLength,
                                        indexDigits.GetOr(CalculateIndexDigits(|segments|)))
      ensures files == old(files) + Names(metadata)
    {
      var digits := if indexDigits.None? then CalculateIndexDigits(|segments|) else indexDigits.value;
      metadata := [];
      var i := 0;
      while i < |segments|
        invariant i <= |segments| && metadata == SavedMetadata(segments[..i], extension, maxFilenameLength, digits)
        invariant files == old(files) + Names(metadata)
      {
        var record := SaveSegment(segments[i], i, digits);
        assert metadata + [record] == SavedMetadata(segments[..i + 1], extension, maxFilenameLength, digits) by {
          SavedMetadataStep(segments, i, extension, maxFilenameLength, digits);
        }
        assert Names(metadata + [record]) == Names(metadata) + {record.filename} by {
          NamesSnoc(metadata, record);
        }
        metadata := metadata + [record];
        i := i + 1;
      }
      assert segments[..i] == segments;
      assert digits == indexDigits.GetOr(CalculateIndexDigits(|segments|));
    }

    /** The body of `split_and_save`'s loop: export segment `i` under its sequential index. */
    method SaveSegment(seg: Segment, i: nat, digits: nat) returns (record: Segment)
      modifies this
      ensures record == SavedRecord(seg, i, extension, maxFilenameLength, digits)
      ensures files == old(files) + {record.filename}
    {
      var index := i + 1;
      var filename := FormatIndexFilename(index, None, seg.text, extension, digits, 3, maxFilenameLength);
      files := files + {filename};
      record := Segment(seg.start, seg.end, seg.text, Some(index), None, filename);
    }

    /**
     * `generate_metadata_only`: one record per segment with its times and text but no key and
     * no file name, so none of them is confirmed.
     */
    method GenerateMetadataOnly(segments: seq<Segment>) returns (metadata: seq<Segment>)
      ensures |metadata| == |segments|
      ensures forall i :: 0 <= i < |segments| ==>
                metadata[i] == Segment(segments[i].start, segments[i].end, segments[i].text, None, None, "")
                && !IsConfirmed(metadata[i])
    {
      metadata := [];
      var i := 0;
      while i < |segments|
        invariant i <= |segments| && |metadata| == i
        invariant forall k :: 0 <= k < i ==>
                    metadata[k] == Segment(segments[k].start, segments[k].end, segments[k].text, None, None, "")
      {
        var seg := segments[i];
        metadata := metadata + [Segment(seg.start, seg.end, seg.text, None, None, "")];
        i := i + 1;
      }
    }

    /** The confirmed keys of the previous export, sorted by start time. */
    method CollectConfirmed(existing: seq<Entry>) returns (confirmed: seq<Anchor>)
      ensures confirmed == Confirmed(existing)
    {
      confirmed := [];
      var k := 0;
      while k < |existing|
        invariant k <= |existing| && confirmed == Anchors(existing[..k])
      {
        var seg := existing[k].seg;
        assert existing[..k + 1][..k] == existing[..k];
        if IsConfirmed(seg) {
          confirmed := confirmed + [AnchorOf(seg)];
        }
        k := k + 1;
      }
      assert existing[..k] == existing;
      confirmed := SortBy(confirmed, AnchorStart);
    }

    /** The scan over the confirmed keys for a segment starting at `s`. */
    method ScanNeighbours(confirmed: seq<Anchor>, s: real) returns (before: Option<Key>, after: Option<Key>)
      ensures (before, after) == ScanConfirmed(confirmed, s, 0, None)
    {
      before, after := None, None;
      var j := 0;
      while j < |confirmed|
        invariant j <= |confirmed| && after.None?
        invariant ScanConfirmed(confirmed, s, j, before) == ScanConfirmed(confirmed, s, 0, None)
      {
        if confirmed[j].start < s {
          before := Some(confirmed[j].key);
        } else if confirmed[j].start > s && after.None? {
          after := Some(confirmed[j].key);
          break;
        }
        j := j + 1;
      }
    }

    /** The pass over the segments keyed so far, tightening `before` and `after`. */
    method TightenNeighbours(result: seq<Entry>, s: real, before0: Option<Key>, after0: Option<Key>)
      returns (before: Option<Key>, after: Option<Key>)
      ensures (before, after) == Tighten(result, s, 0, before0, after0)
    {
      before, after := before0, after0;
      var j := 0;
      while j < |result|
        invariant j <= |result| && Tighten(result, s, j, before, after) == Tighten(result, s, 0, before0, after0)
      {
        var r := result[j].seg;
        if r.index.Some? {
          if r.start < s {
            var rKey := KeyOf(r);
            if before.None? || Less(before.value, rKey) {
              before := Some(rKey);
            }
          } else if r.start > s {
            var rKey := KeyOf(r);
            if after.None? || Less(rKey, after.value) {
              after := Some(rKey);
            }
          }
        }
        j := j + 1;
      }
    }

    /** The key of one unconfirmed segment: its neighbours, then `determine_index` with `l = 1`. */
    method AllocateKey(seg: Segment, confirmed: seq<Anchor>, result: seq<Entry>, subDigits: nat) returns (copy: Segment)
      ensures copy == Allocate(seg, confirmed, result, subDigits)
    {
      var s := seg.start;
      var before, after := ScanNeighbours(confirmed, s);
      before, after := TightenNeighbours(result, s, before, after);
      var key := DetermineIndex(before, after, 1, subDigits);
      copy := seg.(index := Some(key.index), sub := if key.sub != 0 then Some(key.sub) else None);
    }

    /** One step of the pass: a confirmed segment is copied, any other is given a key. */
    method AssignEntry(e: Entry, confirmed: seq<Anchor>, result: seq<Entry>, subDigits: nat) returns (r: Entry)
      ensures r == AssignOne(e, confirmed, result, subDigits)
    {
      if IsConfirmed(e.seg) {
        r := e;
      } else {
        var copy := AllocateKey(e.seg, confirmed, result, subDigits);
        r := Entry(e.id, copy);
      }
    }

    /**
     * `assign_indices(segments, existing_segments, index_sub_digits)`: sorts the segments by
     * start time, collects the confirmed keys of the previous export, then keys the segments
     * one by one.
     */
    method AssignIndices(segments: seq<Entry>, existing: seq<Entry>, subDigits: nat) returns (result: seq<Entry>)
      ensures result == AssignSpec(segments, existing, subDigits)
    {
      var sorted := SortBy(segments, StartOf);
      var confirmed := CollectConfirmed(existing);
      result := [];
      var i := 0;
      while i < |sorted|
        invariant i <= |sorted| && result == Assigned(sorted, confirmed, subDigits, i)
      {
        var entry := AssignEntry(sorted[i], confirmed, result, subDigits);
        AssignedNext(sorted, confirmed, subDigits, i);
        result := result + [entry];
        i := i + 1;
      }
    }
  }
}
