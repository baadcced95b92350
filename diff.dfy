/**
 * `export_diff_v2` (split.py): brings the output directory in line with the merged segments
 * by deleting the files of segments marked deleted, re-keying the segments, and then
 * exporting, renaming or skipping each one against its previous record.
 */
module Diff {
  import opened Wrappers
  import opened Keys
  import opened Naming
  import opened Sorting
  import opened Splitter

  /**
   * The keys present in one entry of the edit map: `deleted` is the truthiness of
   * `changes.get("deleted")`, the others say whether "start", "end" or "text" is a key.
   */
  datatype Changes = Changes(deleted: bool, start: bool, end: bool, text: bool)

  /** `edit_segments.get(seg_id, {})` for an id without an entry. */
  const NoChanges := Changes(false, false, false, false)

  /** One `id -> changes` pair of the edit map. */
  datatype Edit = Edit(id: string, changes: Changes)

  /** An entry of `renamed`: `{"old": ..., "new": ...}`. */
  datatype Renamed = Renamed(oldName: string, newName: string)

  /** The result dictionary of `export_diff_v2`. */
  datatype DiffResult = DiffResult(exported: seq<string>, renamed: seq<Renamed>, deleted: seq<string>,
                                   skipped: nat, segments: seq<Entry>)

  /** What the per-segment pass has collected so far. */
  datatype Tally = Tally(exported: seq<string>, renamed: seq<Renamed>, skipped: nat, segments: seq<Entry>)

  /** Times closer than this (in seconds) count as unchanged. */
  const Tolerance: real := 0.001

  /**
   * `generate_filename` as one run calls it: the splitter's extension and length limit with the
   * run's digit counts. The source raises for a segment without a key; the run never names one
   * (see `PrevKeyedIds`), and the model gives it the empty name. The pass below takes the naming
   * as a parameter, so its properties hold for any naming function.
   */
  function FileNaming(extension: string, maxLength: Option<int>, indexDigits: nat, subDigits: nat): Segment -> string
  {
    (seg: Segment) => if seg.index.Some? then SegmentFilename(seg, extension, maxLength, indexDigits, subDigits) else ""
  }

  /** `nameOf` gives every keyed segment the name `generate_filename` gives it. */
  ghost predicate NamedBy(nameOf: Segment -> string, extension: string, maxLength: Option<int>, indexDigits: nat, subDigits: nat)
  {
    forall seg: Segment {:trigger SegmentFilename(seg, extension, maxLength, indexDigits, subDigits)} ::
      seg.index.Some? ==> nameOf(seg) == SegmentFilename(seg, extension, maxLength, indexDigits, subDigits)
  }

  lemma FileNamingNames(extension: string, maxLength: Option<int>, indexDigits: nat, subDigits: nat)
    ensures NamedBy(FileNaming(extension, maxLength, indexDigits, subDigits), extension, maxLength, indexDigits, subDigits)
  {
  }

  /** The file name of a keyed segment starts with its key. */
  lemma FileNamingKeys(extension: string, maxLength: Option<int>, indexDigits: nat, subDigits: nat, seg: Segment)
    requires seg.index.Some?
    ensures ParseFilenameKey(FileNaming(extension, maxLength, indexDigits, subDigits)(seg)) == Some(KeyOf(seg))
  {
  }

  /** `d.get(id)` on an `id -> segment` dictionary. */
  function Lookup(entries: seq<Entry>, id: string): (r: Option<Segment>)
    ensures r.None? <==> forall i :: 0 <= i < |entries| ==> entries[i].id != id
    ensures r.Some? ==> exists i :: 0 <= i < |entries| && entries[i] == Entry(id, r.value)
  {
    if entries == [] then None
    else if entries[0].id == id then Some(entries[0].seg)
    else
      var r := Lookup(entries[1..], id);
      assert forall i :: 1 <= i < |entries| ==> entries[i] == entries[1..][i - 1];
      r
  }

  /** `edit_segments.get(seg_id, {})`. */
  function ChangesOf(edits: seq<Edit>, id: string): (c: Changes)
    ensures (forall i :: 0 <= i < |edits| ==> edits[i].id != id) ==> c == NoChanges
    ensures c != NoChanges ==> exists i :: 0 <= i < |edits| && edits[i] == Edit(id, c)
    ensures forall i :: 0 <= i < |edits| && edits[i].id == id && (forall j :: 0 <= j < i ==> edits[j].id != id) ==>
              c == edits[i].changes
  {
    if edits == [] then NoChanges
    else if edits[0].id == id then edits[0].changes
    else
      var c := ChangesOf(edits[1..], id);
      assert forall i :: 1 <= i < |edits| ==> edits[i] == edits[1..][i - 1];
      c
  }

  function Abs(x: real): real
  {
    if x < 0.0 then -x else x
  }


  // ---------------------------------------------------------------------------
  // Step 1: deletions
  // ---------------------------------------------------------------------------

  /**
   * The file an edit entry asks to delete: the name of its previous record, when the entry is
   * marked deleted and the previous record exists and has an index.
   */
  function DeleteTarget(e: Edit, previous: seq<Entry>, nameOf: Segment -> string): Option<string>
  {
    if !e.changes.deleted then None
    else
      match Lookup(previous, e.id)
      case None => None
      case Some(p) => if p.index.Some? then Some(nameOf(p)) else None
  }

  function TargetAt(previous: seq<Entry>, nameOf: Segment -> string): (Edit, nat) -> Option<string>
  {
    (e: Edit, i: nat) => DeleteTarget(e, previous, nameOf)
  }

  /** The deletion target of every edit entry, in the order of the edit map. */
  function DeleteTargets(edits: seq<Edit>, previous: seq<Entry>, nameOf: Segment -> string): (targets: seq<Option<string>>)
    ensures |targets| == |edits|
    ensures forall i :: 0 <= i < |edits| ==> targets[i] == DeleteTarget(edits[i], previous, nameOf)
  {
    MapWithIndex(edits, TargetAt(previous, nameOf))
  }

  /** The directory and the `deleted` list after the deletion loop over the targets. */
  function DeletePass(files: set<string>, targets: seq<Option<string>>): (set<string>, seq<string>)
  {
    if targets == [] then (files, [])
    else
      var (f, deleted) := DeletePass(files, targets[..|targets| - 1]);
      var t := targets[|targets| - 1];
      if t.Some? && t.value in f then (f - {t.value}, deleted + [t.value]) else (f, deleted)
  }

  /**
   * The deletion loop removes exactly the files it reports: a name is reported iff it was in
   * the directory and some target names it, each name once, and the directory loses exactly
   * the reported names.
   */
  lemma {:induction false} DeletePassExactly(files: set<string>, targets: seq<Option<string>>)
    ensures var (f, deleted) := DeletePass(files, targets);
      (forall x :: x in f <==> x in files && x !in deleted)
      && (forall x :: x in deleted <==> x in files && Some(x) in targets)
      && (forall i, j :: 0 <= i < j < |deleted| ==> deleted[i] != deleted[j])
    decreases |targets|
  {
    if targets != [] {
      var init := targets[..|targets| - 1];
      DeletePassExactly(files, init);
      assert targets == init + [targets[|targets| - 1]];
    }
  }

  // ---------------------------------------------------------------------------
  // Step 3: one segment against its previous record
  // ---------------------------------------------------------------------------

  /** A previous record and its file name. */
  datatype Prior = Prior(seg: Segment, name: string)

  /** What the loop body looks at for one keyed segment. */
  datatype Item = Item(entry: Entry, name: string, prior: Option<Prior>, changes: Changes)

  function ItemFor(e: Entry, prev: Option<Segment>, ch: Changes, nameOf: Segment -> string): Item
  {
    Item(e, nameOf(e.seg), if prev.Some? then Some(Prior(prev.value, nameOf(prev.value))) else None, ch)
  }

  /** The previous record the pass compares a segment with; none under `force`. */
  function PrevOf(previous: seq<Entry>, id: string, force: bool): Option<Segment>
  {
    if force then None else Lookup(previous, id)
  }

  function ItemAt(previous: seq<Entry>, edits: seq<Edit>, nameOf: Segment -> string, force: bool): (Entry, nat) -> Item
  {
    (e: Entry, i: nat) => ItemFor(e, PrevOf(previous, e.id, force), ChangesOf(edits, e.id), nameOf)
  }

  /** The items of the keyed segments, in their order. */
  function Items(ws: seq<Entry>, previous: seq<Entry>, edits: seq<Edit>, nameOf: Segment -> string, force: bool): (items: seq<Item>)
    ensures |items| == |ws|
    ensures forall i :: 0 <= i < |ws| ==>
      items[i] == ItemFor(ws[i], PrevOf(previous, ws[i].id, force), ChangesOf(edits, ws[i].id), nameOf)
  {
    MapWithIndex(ws, ItemAt(previous, edits, nameOf, force))
  }

  /** The record stored under the segment's id: times, text and key, but no file name. */
  function ResultRecord(e: Entry): (r: Entry)
    ensures r.id == e.id && !IsConfirmed(r.seg)
    ensures r.seg == e.seg.(filename := "")
  {
    Entry(e.id, Segment(e.seg.start, e.seg.end, e.seg.text, e.seg.index, e.seg.sub, ""))
  }

  /** A change of times: "start" or "end" edited, or either moved by more than the tolerance. */
  predicate TimeChanged(ch: Changes, seg: Segment, prev: Segment)
  {
    ch.start || ch.end || Abs(seg.start - prev.start) > Tolerance || Abs(seg.end - prev.end) > Tolerance
  }

  /** The segment is exported: its name joins the directory and the `exported` list. */
  function Exported(files: set<string>, t: Tally, name: string): (set<string>, Tally)
  {
    (files + {name}, t.(exported := t.exported + [name]))
  }

  /**
   * The body of the loop over the keyed segments: export, delete-and-export, rename, export in
   * place of a failed rename, or skip; then store the segment's record.
   */
  function Step(files: set<string>, t: Tally, item: Item): (set<string>, Tally)
  {
    var (f, u) :=
      match item.prior
      case None => Exported(files, t, item.name)
      case Some(p) =>
        if TimeChanged(item.changes, item.entry.seg, p.seg) then
          Exported(if p.name != item.name then files - {p.name} else files, t, item.name)
        else if item.changes.text || p.name != item.name then
          if p.name in files then (files - {p.name} + {item.name}, t.(renamed := t.renamed + [Renamed(p.name, item.name)]))
          else Exported(files, t, item.name)
        else (files, t.(skipped := t.skipped + 1));
    (f, u.(segments := u.segments + [ResultRecord(item.entry)]))
  }

  /** The directory and the tally after the loop over the items. */
  function ExportPass(files: set<string>, items: seq<Item>): (r: (set<string>, Tally))
    ensures |r.1.segments| == |items|
  {
    if items == [] then (files, Tally([], [], 0, []))
    else
      var (f, t) := ExportPass(files, items[..|items| - 1]);
      Step(f, t, items[|items| - 1])
  }

  /**
   * What one step does, case by case. A segment without a previous record (every segment under
   * `force`) is exported. One whose times changed is exported again, after its old file is
   * deleted if the name changed. One whose times are unchanged but whose text or name changed
   * is renamed, without being exported again, when its old file exists, and is exported when it
   * does not. Any other is only counted as skipped, and the directory is left as it was.
   */
  lemma StepEffect(files: set<string>, t: Tally, item: Item)
    ensures Step(files, t, item).1.segments == t.segments + [ResultRecord(item.entry)]
    ensures var (f, u) := Step(files, t, item);
      item.prior.None? ==>
        f == files + {item.name}
        && u.exported == t.exported + [item.name] && u.renamed == t.renamed && u.skipped == t.skipped
    ensures var (f, u) := Step(files, t, item);
      item.prior.Some? && TimeChanged(item.changes, item.entry.seg, item.prior.value.seg) ==>
        f == (if item.prior.value.name != item.name then files - {item.prior.value.name} else files) + {item.name}
        && u.exported == t.exported + [item.name] && u.renamed == t.renamed && u.skipped == t.skipped
    ensures var (f, u) := Step(files, t, item);
      item.prior.Some? && !TimeChanged(item.changes, item.entry.seg, item.prior.value.seg)
      && (item.changes.text || item.prior.value.name != item.name) && item.prior.value.name in files ==>
        f == files - {item.prior.value.name} + {item.name}
        && u.renamed == t.renamed + [Renamed(item.prior.value.name, item.name)]
        && u.exported == t.exported && u.skipped == t.skipped
    ensures var (f, u) := Step(files, t, item);
      item.prior.Some? && !TimeChanged(item.changes, item.entry.seg, item.prior.value.seg)
      && (item.changes.text || item.prior.value.name != item.name) && item.prior.value.name !in files ==>
        f == files + {item.name}
        && u.exported == t.exported + [item.name] && u.renamed == t.renamed && u.skipped == t.skipped
    ensures var (f, u) := Step(files, t, item);
      item.prior.Some? && !TimeChanged(item.changes, item.entry.seg, item.prior.value.seg)
      && !item.changes.text && item.prior.value.name == item.name ==>
        f == files && u.skipped == t.skipped + 1 && u.exported == t.exported && u.renamed == t.renamed
  {
  }

  /** A segment whose name, times and text are those of its previous record, with no edits. */
  predicate Unchanged(item: Item)
  {
    item.prior.Some? && item.prior.value.name == item.name && item.changes == NoChanges
    && item.entry.seg.start == item.prior.value.seg.start && item.entry.seg.end == item.prior.value.seg.end
  }

  /** A pass over unchanged segments only skips: no file is touched and nothing is reported. */
  lemma {:induction false} UnchangedPassSkips(files: set<string>, items: seq<Item>)
    requires forall i :: 0 <= i < |items| ==> Unchanged(items[i])
    ensures var (f, t) := ExportPass(files, items);
      f == files && t.exported == [] && t.renamed == [] && t.skipped == |items|
    decreases |items|
  {
    if items != [] {
      var n := |items| - 1;
      UnchangedPassSkips(files, items[..n]);
      var (f, t) := ExportPass(files, items[..n]);
      assert !TimeChanged(items[n].changes, items[n].entry.seg, items[n].prior.value.seg);
      StepEffect(f, t, items[n]);
    }
  }

  /**
   * Renames happen in place, one segment at a time. When a segment's new name is the old name
   * of the segment after it, the first rename replaces the second segment's file, and the
   * second rename then moves that file on: the first segment is reported renamed to a name no
   * file has any more. This happens when a segment is inserted before both, each moves up by
   * one key, and the first one's text sanitizes to the same name part as the second one's.
   */
  lemma RenameChainOverwrites(files: set<string>, a: Entry, b: Entry, pa: Segment, pb: Segment,
                              n1: string, n2: string, n3: string)
    requires n1 != n2 && n2 != n3 && n1 != n3 && n1 in files && n2 in files
    requires !TimeChanged(NoChanges, a.seg, pa) && !TimeChanged(NoChanges, b.seg, pb)
    ensures var (f, t) := ExportPass(files, [Item(a, n2, Some(Prior(pa, n1)), NoChanges),
                                             Item(b, n3, Some(Prior(pb, n2)), NoChanges)]);
      t.renamed == [Renamed(n1, n2), Renamed(n2, n3)] && t.exported == [] && t.skipped == 0
      && n3 in f && n2 !in f && n1 !in f
  {
    var items := [Item(a, n2, Some(Prior(pa, n1)), NoChanges), Item(b, n3, Some(Prior(pb, n2)), NoChanges)];
    var empty := Tally([], [], 0, []);
    assert items[..1][..0] == [];
    assert ExportPass(files, items[..1]) == Step(files, empty, items[0]);
    var f1 := files - {n1} + {n2};
    var t1 := empty.(renamed := [Renamed(n1, n2)], segments := [ResultRecord(a)]);
    assert empty.renamed + [Renamed(n1, n2)] == [Renamed(n1, n2)];
    assert empty.segments + [ResultRecord(a)] == [ResultRecord(a)];
    assert Step(files, empty, items[0]) == (f1, t1);
    assert n2 in f1;
    assert ExportPass(files, items) == Step(f1, t1, items[1]);
  }

  /**
   * Every segment lands in exactly one of `exported`, `renamed` and `skipped`, and the result
   * holds one record per item, in order, without a file name.
   */
  lemma {:induction false} ExportPassAccounts(files: set<string>, items: seq<Item>)
    ensures var (f, t) := ExportPass(files, items);
      |t.exported| + |t.renamed| + t.skipped == |items|
      && (forall i :: 0 <= i < |items| ==> t.segments[i] == ResultRecord(items[i].entry))
    decreases |items|
  {
    if items != [] {
      var n := |items| - 1;
      ExportPassAccounts(files, items[..n]);
      var (f, t) := ExportPass(files, items[..n]);
      var (g, u) := ExportPass(files, items);
      assert u.segments == t.segments + [ResultRecord(items[n].entry)];
      forall i | 0 <= i < n
        ensures u.segments[i] == ResultRecord(items[i].entry)
      {
        assert u.segments[i] == t.segments[i] && items[..n][i] == items[i];
      }
    }
  }

  /**
   * With no previous records (under `force`), every item is exported under its name, in order,
   * and none is renamed or skipped.
   */
  lemma {:induction false} ExportPassWithoutPrior(files: set<string>, items: seq<Item>)
    requires forall i :: 0 <= i < |items| ==> items[i].prior.None?
    ensures var t := ExportPass(files, items).1;
      |t.exported| == |items| && (forall i :: 0 <= i < |items| ==> t.exported[i] == items[i].name)
      && t.renamed == [] && t.skipped == 0
    decreases |items|
  {
    if items != [] {
      var n := |items| - 1;
      var init := items[..n];
      assert forall i :: 0 <= i < n ==> init[i] == items[i];
      ExportPassWithoutPrior(files, init);
    }
  }

  /** With no previous records, the directory gains exactly the items' names. */
  lemma {:induction false} ExportPassWithoutPriorFiles(files: set<string>, items: seq<Item>)
    requires forall i :: 0 <= i < |items| ==> items[i].prior.None?
    ensures ExportPass(files, items).0 == files + set i | 0 <= i < |items| :: items[i].name
    decreases |items|
  {
    if items != [] {
      var n := |items| - 1;
      var init := items[..n];
      assert forall i :: 0 <= i < n ==> init[i] == items[i];
      ExportPassWithoutPriorFiles(files, init);
      var before := set i | 0 <= i < n :: init[i].name;
      var after := set i | 0 <= i < |items| :: items[i].name;
      forall x
        ensures x in after <==> x in before || x == items[n].name
      {
        if x in after {
          var i :| 0 <= i < |items| && x == items[i].name;
          if i < n {
            assert x == init[i].name;
          }
        }
      }
    }
  }

  // ---------------------------------------------------------------------------
  // The whole run
  // ---------------------------------------------------------------------------

  /**
   * `export_diff_v2`: the directory afterwards and the result dictionary, for the naming
   * function `nameOf` and the sub-key width `subDigits`.
   */
  function ExportDiffSpec(files: set<string>, merged: seq<Entry>, previous: seq<Entry>, edits: seq<Edit>,
                          nameOf: Segment -> string, subDigits: nat, force: bool): (set<string>, DiffResult)
  {
    var (f1, deleted) := DeletePass(files, DeleteTargets(edits, previous, nameOf));
    var ws := AssignSpec(merged, if force then [] else previous, subDigits);
    var (f2, t) := ExportPass(f1, Items(ws, previous, edits, nameOf, force));
    (f2, DiffResult(t.exported, t.renamed, deleted, t.skipped, t.segments))
  }

  /**
   * The deletion step reports exactly the files that existed and that some edit entry marked
   * deleted names, each once, and removes exactly those.
   */
  lemma DeletionsExactly(files: set<string>, edits: seq<Edit>, previous: seq<Entry>, nameOf: Segment -> string)
    ensures var (f, deleted) := DeletePass(files, DeleteTargets(edits, previous, nameOf));
      (forall x :: x in deleted <==>
         x in files && exists i :: 0 <= i < |edits| && DeleteTarget(edits[i], previous, nameOf) == Some(x))
      && (forall x :: x in f <==> x in files && x !in deleted)
      && (forall i, j :: 0 <= i < j < |deleted| ==> deleted[i] != deleted[j])
  {
    var targets := DeleteTargets(edits, previous, nameOf);
    DeletePassExactly(files, targets);
    forall x
      ensures Some(x) in targets <==> exists i :: 0 <= i < |edits| && DeleteTarget(edits[i], previous, nameOf) == Some(x)
    {
      if Some(x) in targets {
        var i :| 0 <= i < |targets| && targets[i] == Some(x);
        assert DeleteTarget(edits[i], previous, nameOf) == Some(x);
      }
    }
  }

  /** The deletion step runs whatever `force` says, before anything is re-keyed. */
  lemma DeletionIgnoresForce(files: set<string>, merged: seq<Entry>, previous: seq<Entry>, edits: seq<Edit>,
                             nameOf: Segment -> string, subDigits: nat, force: bool)
    ensures ExportDiffSpec(files, merged, previous, edits, nameOf, subDigits, force).1.deleted
            == DeletePass(files, DeleteTargets(edits, previous, nameOf)).1
  {
  }

  /** Entries that copy the ids of a permutation of `merged` hold exactly the merged ids. */
  lemma SameIds(ws: seq<Entry>, sorted: seq<Entry>, merged: seq<Entry>)
    requires |ws| == |sorted| && multiset(sorted) == multiset(merged)
    requires forall i :: 0 <= i < |ws| ==> ws[i].id == sorted[i].id
    ensures forall i :: 0 <= i < |ws| ==> exists j :: 0 <= j < |merged| && ws[i].id == merged[j].id
    ensures forall j :: 0 <= j < |merged| ==> exists i :: 0 <= i < |ws| && ws[i].id == merged[j].id
  {
    forall i | 0 <= i < |ws|
      ensures exists j :: 0 <= j < |merged| && ws[i].id == merged[j].id
    {
      assert sorted[i] in multiset(merged);
      var j :| 0 <= j < |merged| && merged[j] == sorted[i];
    }
    forall j | 0 <= j < |merged|
      ensures exists i :: 0 <= i < |ws| && ws[i].id == merged[j].id
    {
      assert merged[j] in multiset(sorted);
      var i :| 0 <= i < |sorted| && sorted[i] == merged[j];
    }
  }

  /** The working set holds exactly the merged ids. */
  lemma WorkingSetIds(merged: seq<Entry>, existing: seq<Entry>, subDigits: nat)
    ensures var ws := AssignSpec(merged, existing, subDigits);
      |ws| == |merged|
      && (forall i :: 0 <= i < |ws| ==> exists j :: 0 <= j < |merged| && ws[i].id == merged[j].id)
      && (forall j :: 0 <= j < |merged| ==> exists i :: 0 <= i < |ws| && ws[i].id == merged[j].id)
  {
    AssignSpecCopies(merged, existing, subDigits);
    SameIds(AssignSpec(merged, existing, subDigits), SortBy(merged, StartOf), merged);
  }

  /** The pass over the items of any keyed working set accounts for every segment of it. */
  lemma ItemsAccounted(files: set<string>, ws: seq<Entry>, previous: seq<Entry>, edits: seq<Edit>,
                       nameOf: Segment -> string, force: bool)
    ensures var t := ExportPass(files, Items(ws, previous, edits, nameOf, force)).1;
      |t.exported| + |t.renamed| + t.skipped == |ws| && |t.segments| == |ws|
      && forall i :: 0 <= i < |ws| ==> t.segments[i] == ResultRecord(ws[i])
  {
    var items := Items(ws, previous, edits, nameOf, force);
    ExportPassAccounts(files, items);
    forall i | 0 <= i < |ws|
      ensures items[i].entry == ws[i]
    {
    }
  }

  /**
   * The result holds one record per merged segment, in start order, each the re-keyed segment
   * without a file name, and the counts add up.
   */
  lemma ExportDiffAccounts(files: set<string>, merged: seq<Entry>, previous: seq<Entry>, edits: seq<Edit>,
                           nameOf: Segment -> string, subDigits: nat, force: bool)
    ensures var r := ExportDiffSpec(files, merged, previous, edits, nameOf, subDigits, force).1;
      var ws := AssignSpec(merged, if force then [] else previous, subDigits);
      |r.exported| + |r.renamed| + r.skipped == |merged|
      && |r.segments| == |merged|
      && (forall i :: 0 <= i < |merged| ==> r.segments[i] == ResultRecord(ws[i]))
  {
    var ws := AssignSpec(merged, if force then [] else previous, subDigits);
    var f1 := DeletePass(files, DeleteTargets(edits, previous, nameOf)).0;
    ItemsAccounted(f1, ws, previous, edits, nameOf, force);
  }

  /**
   * Under `force` every merged segment is exported under its new name, in start order, and
   * none is renamed or skipped.
   */
  lemma ForceExportsAll(files: set<string>, merged: seq<Entry>, previous: seq<Entry>, edits: seq<Edit>,
                        nameOf: Segment -> string, subDigits: nat)
    ensures var r := ExportDiffSpec(files, merged, previous, edits, nameOf, subDigits, true).1;
      var ws := AssignSpec(merged, [], subDigits);
      |r.exported| == |merged| && (forall i :: 0 <= i < |merged| ==> r.exported[i] == nameOf(ws[i].seg))
      && r.renamed == [] && r.skipped == 0
  {
    var ws := AssignSpec(merged, [], subDigits);
    var f1 := DeletePass(files, DeleteTargets(edits, previous, nameOf)).0;
    ExportPassWithoutPrior(f1, Items(ws, previous, edits, nameOf, true));
  }

  /** Without previous records, the pass over a working set adds exactly its names. */
  lemma ItemsWithoutPriorFiles(files: set<string>, ws: seq<Entry>, previous: seq<Entry>, edits: seq<Edit>,
                               nameOf: Segment -> string)
    ensures ExportPass(files, Items(ws, previous, edits, nameOf, true)).0 == files + set i | 0 <= i < |ws| :: nameOf(ws[i].seg)
  {
    var items := Items(ws, previous, edits, nameOf, true);
    ExportPassWithoutPriorFiles(files, items);
    var a := set i | 0 <= i < |items| :: items[i].name;
    var b := set i | 0 <= i < |ws| :: nameOf(ws[i].seg);
    forall x | x in a
      ensures x in b
    {
      var i :| 0 <= i < |items| && x == items[i].name;
      assert x == nameOf(ws[i].seg);
    }
    forall x | x in b
      ensures x in a
    {
      var i :| 0 <= i < |ws| && x == nameOf(ws[i].seg);
      assert x == items[i].name;
    }
    assert a == b;
  }

  /** Under `force` the directory gains exactly the new names of the merged segments. */
  lemma ForceExportsFiles(files: set<string>, merged: seq<Entry>, previous: seq<Entry>, edits: seq<Edit>,
                          nameOf: Segment -> string, subDigits: nat)
    ensures var f := ExportDiffSpec(files, merged, previous, edits, nameOf, subDigits, true).0;
      var ws := AssignSpec(merged, [], subDigits);
      var f1 := DeletePass(files, DeleteTargets(edits, previous, nameOf)).0;
      f == f1 + set i | 0 <= i < |merged| :: nameOf(ws[i].seg)
  {
    var f1 := DeletePass(files, DeleteTargets(edits, previous, nameOf)).0;
    ItemsWithoutPriorFiles(f1, AssignSpec(merged, [], subDigits), previous, edits, nameOf);
  }

  /**
   * The records written back have no file name, so none of them is confirmed: a later run
   * that reads them as its previous records has no confirmed keys to keep.
   */
  lemma ResultHasNoAnchors(files: set<string>, merged: seq<Entry>, previous: seq<Entry>, edits: seq<Edit>,
                           nameOf: Segment -> string, subDigits: nat, force: bool)
    ensures Confirmed(ExportDiffSpec(files, merged, previous, edits, nameOf, subDigits, force).1.segments) == []
  {
    var r := ExportDiffSpec(files, merged, previous, edits, nameOf, subDigits, force).1;
    ExportDiffAccounts(files, merged, previous, edits, nameOf, subDigits, force);
    NoAnchors(r.segments);
  }

  // ---------------------------------------------------------------------------
  // The run itself
  // ---------------------------------------------------------------------------

  /** Every segment of the working set has a key. */
  predicate Keyed(ws: seq<Entry>)
  {
    forall i :: 0 <= i < |ws| ==> ws[i].seg.index.Some?
  }

  /**
   * Every previous record the pass compares a segment of `segments` with has an index: the
   * source raises `KeyError` on one without.
   */
  predicate PrevKeyedIds(segments: seq<Entry>, previous: seq<Entry>, force: bool)
  {
    forall i :: 0 <= i < |segments| && PrevOf(previous, segments[i].id, force).Some? ==>
      PrevOf(previous, segments[i].id, force).value.index.Some?
  }

  /** The working set keeps the merged ids and gives every segment a key. */
  lemma WorkingSetReady(merged: seq<Entry>, previous: seq<Entry>, force: bool, d: nat)
    requires PrevKeyedIds(merged, previous, force)
    ensures var ws := AssignSpec(merged, if force then [] else previous, d);
      Keyed(ws) && PrevKeyedIds(ws, previous, force)
  {
    var existing := if force then [] else previous;
    var ws, sorted := AssignSpec(merged, existing, d), SortBy(merged, StartOf);
    AssignSpecCopies(merged, existing, d);
    forall i | 0 <= i < |ws| && PrevOf(previous, ws[i].id, force).Some?
      ensures PrevOf(previous, ws[i].id, force).value.index.Some?
    {
      assert sorted[i] in multiset(merged);
      var j :| 0 <= j < |merged| && merged[j] == sorted[i];
    }
  }

  /** One iteration of the deletion loop. */
  method DeleteOne(sp: AudioSplitter, e: Edit, previous: seq<Entry>, ghost nameOf: Segment -> string, indexDigits: nat, subDigits: nat)
    returns (deleted: Option<string>)
    requires NamedBy(nameOf, sp.extension, sp.maxFilenameLength, indexDigits, subDigits)
    modifies sp
    ensures var t := DeleteTarget(e, previous, nameOf);
      if t.Some? && t.value in old(sp.files) then deleted == t && sp.files == old(sp.files) - {t.value}
      else deleted.None? && sp.files == old(sp.files)
  {
    deleted := None;
    if e.changes.deleted {
      var prev := Lookup(previous, e.id);
      if prev.Some? && prev.value.index.Some? {
        var filename := sp.GenerateFilename(prev.value, indexDigits, subDigits);
        var ok := sp.DeleteFile(filename);
        if ok {
          deleted := Some(filename);
        }
      }
    }
  }

  /** The names one iteration of the loop over the keyed segments works with. */
  method NameItem(sp: AudioSplitter, e: Entry, prev: Option<Segment>, ch: Changes, ghost nameOf: Segment -> string,
                  indexDigits: nat, subDigits: nat) returns (item: Item)
    requires NamedBy(nameOf, sp.extension, sp.maxFilenameLength, indexDigits, subDigits)
    requires e.seg.index.Some? && (prev.Some? ==> prev.value.index.Some?)
    ensures item == ItemFor(e, prev, ch, nameOf)
  {
    var newName := sp.GenerateFilename(e.seg, indexDigits, subDigits);
    var prior := None;
    if prev.Some? {
      var oldName := sp.GenerateFilename(prev.value, indexDigits, subDigits);
      prior := Some(Prior(prev.value, oldName));
    }
    item := Item(e, newName, prior, ch);
  }

  /** `export_segment` for the item's segment, which writes it under the item's name. */
  method ExportItem(sp: AudioSplitter, item: Item, ghost nameOf: Segment -> string, indexDigits: nat, subDigits: nat)
    returns (filename: string)
    requires NamedBy(nameOf, sp.extension, sp.maxFilenameLength, indexDigits, subDigits)
    requires item.entry.seg.index.Some? && item.name == nameOf(item.entry.seg)
    modifies sp
    ensures filename == item.name && sp.files == old(sp.files) + {item.name}
  {
    var startMs, endMs;
    filename, startMs, endMs := sp.ExportSegment(item.entry.seg, indexDigits, subDigits);
  }

  /** The file operations of one iteration of the loop over the keyed segments. */
  method ProcessItem(sp: AudioSplitter, t: Tally, item: Item, ghost nameOf: Segment -> string, indexDigits: nat, subDigits: nat)
    returns (u: Tally)
    requires NamedBy(nameOf, sp.extension, sp.maxFilenameLength, indexDigits, subDigits)
    requires item.entry.seg.index.Some? && item.name == nameOf(item.entry.seg)
    modifies sp
    ensures (sp.files, u) == Step(old(sp.files), t, item)
  {
    u := t;
    match item.prior {
      case Some(p) =>
        if TimeChanged(item.changes, item.entry.seg, p.seg) {
          if p.name != item.name {
            var _ := sp.DeleteFile(p.name);
          }
          var filename := ExportItem(sp, item, nameOf, indexDigits, subDigits);
          u := u.(exported := u.exported + [filename]);
        } else if item.changes.text || p.name != item.name {
          var ok := sp.RenameFile(p.name, item.name);
          if ok {
            u := u.(renamed := u.renamed + [Renamed(p.name, item.name)]);
          } else if p.name !in sp.files {
            var filename := ExportItem(sp, item, nameOf, indexDigits, subDigits);
            u := u.(exported := u.exported + [filename]);
          }
        } else {
          u := u.(skipped := u.skipped + 1);
        }
      case None =>
        var filename := ExportItem(sp, item, nameOf, indexDigits, subDigits);
        u := u.(exported := u.exported + [filename]);
    }
    u := u.(segments := u.segments + [ResultRecord(item.entry)]);
  }

  /** Step 1: the deletion loop over the edit map. */
  method DeleteMarked(sp: AudioSplitter, edits: seq<Edit>, previous: seq<Entry>, ghost nameOf: Segment -> string,
                      indexDigits: nat, subDigits: nat) returns (deleted: seq<string>)
    requires NamedBy(nameOf, sp.extension, sp.maxFilenameLength, indexDigits, subDigits)
    modifies sp
    ensures (sp.files, deleted) == DeletePass(old(sp.files), DeleteTargets(edits, previous, nameOf))
  {
    ghost var targets := DeleteTargets(edits, previous, nameOf);
    deleted := [];
    var i := 0;
    while i < |edits|
      invariant i <= |edits| && (sp.files, deleted) == DeletePass(old(sp.files), targets[..i])
    {
      assert targets[..i + 1][..i] == targets[..i];
      var name := DeleteOne(sp, edits[i], previous, nameOf, indexDigits, subDigits);
      if name.Some? {
        deleted := deleted + [name.value];
      }
      i := i + 1;
    }
    assert targets[..i] == targets;
  }

  /** Step 3: the loop over the keyed segments. */
  method ExportKeyed(sp: AudioSplitter, ws: seq<Entry>, previous: seq<Entry>, edits: seq<Edit>,
                     ghost nameOf: Segment -> string, indexDigits: nat, subDigits: nat, force: bool) returns (t: Tally)
    requires NamedBy(nameOf, sp.extension, sp.maxFilenameLength, indexDigits, subDigits)
    requires Keyed(ws) && PrevKeyedIds(ws, previous, force)
    modifies sp
    ensures (sp.files, t) == ExportPass(old(sp.files), Items(ws, previous, edits, nameOf, force))
  {
    ghost var items := Items(ws, previous, edits, nameOf, force);
    t := Tally([], [], 0, []);
    var j := 0;
    while j < |ws|
      invariant j <= |ws| && (sp.files, t) == ExportPass(old(sp.files), items[..j])
    {
      assert items[..j + 1][..j] == items[..j];
      var item := NameItem(sp, ws[j], PrevOf(previous, ws[j].id, force), ChangesOf(edits, ws[j].id), nameOf, indexDigits, subDigits);
      t := ProcessItem(sp, t, item, nameOf, indexDigits, subDigits);
      j := j + 1;
    }
    assert items[..j] == items;
  }

  /**
   * `export_diff_v2(splitter, merged, previous, edits, index_digits, index_sub_digits, force)`:
   * deletes, re-keys, then exports, renames or skips each segment, and returns the result.
   */
  method ExportDiff(sp: AudioSplitter, merged: seq<Entry>, previous: seq<Entry>, edits: seq<Edit>,
                    indexDigits: nat, subDigits: nat, force: bool) returns (result: DiffResult)
    requires PrevKeyedIds(merged, previous, force)
    modifies sp
    ensures (sp.files, result)
            == ExportDiffSpec(old(sp.files), merged, previous, edits,
                              FileNaming(sp.extension, sp.maxFilenameLength, indexDigits, subDigits), subDigits, force)
  {
    ghost var nameOf := FileNaming(sp.extension, sp.maxFilenameLength, indexDigits, subDigits);
    FileNamingNames(sp.extension, sp.maxFilenameLength, indexDigits, subDigits);
    var deleted := DeleteMarked(sp, edits, previous, nameOf, indexDigits, subDigits);
    var ws := sp.AssignIndices(merged, if force then [] else previous, subDigits);
    WorkingSetReady(merged, previous, force, subDigits);
    var t := ExportKeyed(sp, ws, previous, edits, nameOf, indexDigits, subDigits, force);
    result := DiffResult(t.exported, t.renamed, deleted, t.skipped, t.segments);
  }
}
