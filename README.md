# voice-slicer: ordering keys, clip file names and the diff export pass

voice-slicer cuts a recording into one audio clip per transcript segment. Each clip file is
named after the segment's ordering key and its text. This project models the logic that
decides those keys and names, and the logic that keeps the output directory in line with an
edited transcript. It proves properties of that model.

The model has these modules:

- `Keys` (`src/utils.py`): the key `(index, index_sub)` and the allocator `determine_index`.
  The allocator places a new key between two neighbours, with a bounded number of sub-key
  digits. The module also has `calculate_index_digits` and `migrate_old_index`.
- `Decimal`: `str(n)` and `zfill`, with the inverse reading of a digit string. The naming
  module depends on it.
- `Naming` (`src/utils.py`): `sanitize_filename`, `format_index_string`,
  `format_index_filename`, `generate_segment_filename` and `expand_filename_template`.
  It also reads a key back out of a file name.
- `Sentences` (`src/utils.py`): `split_sentences_with_positions` and
  `split_sentences_by_punctuation`. Both split text at 。, ！ and ？, as loops.
- `Sorting`: Python's stable `sorted(..., key=...)`, as a specification function with its
  properties.
- `Splitter` (`src/splitter.py`): the class `AudioSplitter`. The output directory is a set of
  file names. The class has `assign_indices`, `generate_filename`, `export_segment`,
  `rename_file`, `delete_file`, `split_and_save` and `generate_metadata_only`.
- `Diff` (`split.py`): `export_diff_v2`. It deletes the files of segments marked deleted,
  re-keys the merged segments, and then exports, renames or skips each segment.
- `JsonLoader` (`src/json_loader.py`): the checks `load_transcript_json` makes on parsed
  data, and `segments_to_whisper_format`.

## Modelling choices

**Dictionaries.** A dictionary from segment id to segment is a sequence of `Entry(id, seg)`
in insertion order. That order decides the order of the file operations, and Python's sort is
stable, so the model keeps it.

A segment's optional `index_sub` and its `filename` are fields of `Segment`. An absent
`filename` is the empty string, which is falsy in the source as well.

**Times.** Timestamps are `real`. The 0.001 tolerance is an exact real.

**Naming.** The diff pass takes the naming function as a parameter, `nameOf`. The method
`Diff.ExportDiff` instantiates it with the splitter's own naming, `FileNaming`. So every
property of the pass holds for any naming. The names the run uses are exactly those that
`AudioSplitter.GenerateFilename` returns.

**Sub-key width.** `split.py` passes `index_sub_digits` to `generate_filename`,
`export_segment` and `assign_indices`, and iterates over the result of `assign_indices` with
`.items()`. `src/splitter.py` at this revision takes neither. The model follows the caller: these
operations take a sub-key width, and `assign_indices` keeps each segment's id.

## Behaviour worth knowing

The model follows the code in each of these cases.

- **Rule 2 of `determine_index`.** The rule steps from `n` by `(10^d - 1 - n) // (l + 1)`,
  a fraction of the range up to the largest sub-key `10^d - 1`, not of the range up to
  `10^d`. Between `(5, 0)` and `(6, 0)` with three sub-key digits it yields `(5, 499)`; a
  split of `[0, 1000)` at its midpoint would give 500 (`Keys.RuleTwoExamples`).
- **The last sub-key.** When only the last sub-key `(N, 10^d - 1)` is still free, rule 2
  reports exhaustion and returns `before` itself (`Keys.RuleTwoLeavesLastSlot`).
- **Equal start times.** Two unkeyed segments that start at the same time get the same key.
  A segment that starts exactly when a keyed one does counts as neither before nor after it
  (`Splitter.EqualStartsShareKey`). Their file names then differ only in the sanitized text,
  so the two clips share one file when their texts sanitize alike.
- **Records without a file name.** `export_diff_v2` writes records without a `filename`.
  `assign_indices` keeps only keys that have both `index` and `filename`. So the next diff
  run keeps none of the written keys and numbers the segments afresh
  (`Diff.ResultHasNoAnchors`, `Splitter.SequentialKeys`).
- **Renames in a chain.** Renames run in place, in start order. When a segment's new name
  is the old name of the next segment, the first rename replaces the next segment's file.
  The second rename then moves that file on. The first segment is reported as renamed to a
  name that no file has any more (`Diff.RenameChainOverwrites`).

## Model

| member | source | states |
|---|---|---|
| Keys.DetermineIndex | src/utils.py:218-245 | the key allocated between `before` and `after` always has a sub-key of at most 10^d - 1 |
| Keys.DetermineIndexBetween | src/utils.py:221-245 | with neighbours in order, the allocated key lies strictly between `before` (absent: (0,0)) and `after` (absent: unbounded) exactly when rule 1 applies, rule 2 has at least l+1 free sub-keys, or rule 3 has a gap of at least l+1; otherwise the key equals `before` |
| Keys.SplitGap | src/utils.py:237-244 | the sub-key chosen inside `[n, top]` moves above `n` exactly when the gap is at least l+1, and then stays below `top` |
| Keys.RuleTwoExamples | src/utils.py:235-239 | between (5,0) and (6,0) the allocator gives (5,499), and between (5,500) and (6,0) it gives (5,749), for l=1 and d=3 |
| Keys.RuleTwoLeavesLastSlot | src/utils.py:235-239 | with `before` = (N, 10^d-2) and `after` = (N+1, 0), the allocator returns `before` although (N, 10^d-1) lies strictly between them |
| Keys.CalculateIndexDigits | src/utils.py:185-197 | the width is exactly 3 for counts up to 999 and exactly the count's number of decimal digits above 999; so it is always at least 3 and the count is below 10^width |
| Keys.MigrateOldIndex | src/utils.py:370-380 | a legacy flat index n becomes the key (n, 0) |
| Decimal.ValueOfNatToString | src/utils.py:312-319 | the decimal string of n reads back as n |
| Decimal.ValueOfZFill | src/utils.py:312-319 | zero-padding a decimal string keeps it all digits and keeps its value |
| Naming.Sanitize | src/utils.py:101-133 | the result is clean (no `\ / : * ? " < > \|`, no space, no `__`, no leading or trailing `_`, never empty), and with a non-negative limit it is no longer than the limit unless it is the fallback "untitled" |
| Naming.SanitizeKeepsText | src/utils.py:113-131 | without a length limit, sanitizing removes only forbidden characters, spaces and underscores: the remaining characters of the text survive, in order, and text with none of them becomes "untitled" |
| Naming.SanitizeTruncates | src/utils.py:125-131 | with a limit k, a name that fits is the unlimited name unchanged, a limit of 0 or a text with nothing to keep gives "untitled", and otherwise the name is the longest prefix of at most k characters of the unlimited name that does not end in `_` (only underscores are dropped after the cut) |
| Naming.WordsJoined | src/utils.py:116-123 | however many spaces separate two words, the name joins them with a single `_` |
| Naming.SanitizeFixpoint | src/utils.py:113-131 | a name is left unchanged by sanitizing exactly when it is already clean |
| Naming.SanitizeIdempotent | src/utils.py:101-133 | sanitizing a sanitized name changes nothing |
| Naming.FormatIndexString | src/utils.py:292-319 | the index string is at least `index_digits` long, made of digits and at most one dash, and holds a dash exactly when the sub-key is present and non-zero |
| Naming.FormatIndexStringRoundTrip | src/utils.py:312-319 | reading the index string back gives the index and the sub-key, with `None` and 0 both read as 0 |
| Naming.DotExtension | src/utils.py:272-274 | an extension that starts with a dot is kept as it is; any other, the empty one included, gets a dot prepended |
| Naming.FormatIndexFilename | src/utils.py:248-289 | the file name ends with the dot-normalised extension |
| Naming.FilenameEncodesKey | src/utils.py:273-289 | the part of a file name before its first `_` reads back as the segment's key |
| Naming.FilenameInjective | src/utils.py:273-289 | two segments with different keys never share a file name |
| Naming.GenerateSegmentFilename | src/utils.py:136-162 | the legacy file name ends with the dot-normalised extension |
| Naming.MigratedNameUnchanged | src/utils.py:370-380 | a migrated key, formatted with three index digits, names its file exactly as the legacy flat index did |
| Naming.ExpandFilenameTemplate | src/utils.py:322-367 | the expanded template always ends with the dot-normalised extension |
| Naming.DefaultTemplateIsFormatIndexFilename | src/utils.py:322-367 | the default template "{index}_{basename}" expands to the name `format_index_filename` builds |
| Sentences.SplitSentencesWithPositions | src/utils.py:38-69 | the loop returns exactly the sentence list of the specification function |
| Sentences.SentencesFromStart | src/utils.py:54-67 | every reported (text, start, end) is the slice `text[start:end]` (unstripped), is not blank, ends at a mark or at the end of the text and holds no mark before its last character; the ranges increase and do not overlap |
| Sentences.NothingLost | src/utils.py:38-69 | every non-whitespace character of the text lies inside some reported sentence |
| Sentences.SplitSentencesByPunctuation | src/utils.py:72-98 | the regex-split loop returns exactly the texts of the sentences `split_sentences_with_positions` reports |
| Sentences.SplitAgrees | src/utils.py:84-98 | joining each text piece with the mark after it yields the same sentences as the position scan |
| Sentences.ReSplitLosesNothing | src/utils.py:84 | splitting with a captured mark group loses no character: the pieces concatenate back to the text |
| Sentences.ReSplitAlternates | src/utils.py:84 | the pieces alternate text, single mark, text, and there is an odd number of them |
| Sorting.SortBySorted | src/splitter.py:295 | the sorted copy is ordered by the key |
| Sorting.SortByStable | src/splitter.py:295 | the sort is stable: elements with equal keys keep their relative order |
| Sorting.SortBySortedIdentity | src/splitter.py:295 | sorting an already ordered sequence changes nothing |
| Splitter.ConfirmedExactly | src/splitter.py:298-307 | the anchors are exactly the existing segments with both an index and a file name, with an absent sub-key read as 0, sorted by start |
| Splitter.ScanFindsNeighbours | src/splitter.py:324-329 | the scan over the sorted anchors finds the last anchor starting earlier and the first one starting later |
| Splitter.TightenBounds | src/splitter.py:332-341 | the larger key wins for `before` and the smaller for `after`: the results bound every key seen on their side and are among those keys |
| Splitter.Allocate | src/splitter.py:316-346 | an unconfirmed segment keeps its times and text and gets `determine_index` of its neighbours with l=1, with a sub-key of 0 stored as `None` |
| Splitter.AssignOne | src/splitter.py:312-348 | a confirmed segment is copied unchanged, and any other segment keeps its id and content and gets a key |
| Splitter.AssignSpecCopies | src/splitter.py:294-350 | one output per input, a permutation of the input sorted by start, each keeping its id and content and having a key |
| Splitter.AssignSpecKeys | src/splitter.py:311-348 | a confirmed input is returned unchanged; every other one gets `determine_index` of its neighbours, from the anchors and the results so far |
| Splitter.SequentialKeys | src/splitter.py:294-350 | with nothing confirmed and strictly increasing start times, the segments are keyed 1, 2, 3, ... with no sub-key |
| Splitter.EqualStartsShareKey | src/splitter.py:332-341 | two unconfirmed segments starting at the same time, with no anchors, both get the key (1, None) |
| Splitter.SegmentFilename | src/splitter.py:257-276 | a segment's file name ends with the audio file's extension and reads back as the segment's key |
| Splitter.SavedMetadataNumbered | src/splitter.py:82-116 | `split_and_save` numbers its input 1, 2, 3, ... in order, without sub-keys, keeps times and text, and gives every segment a distinct, confirmed file name |
| Splitter.AudioSplitter.constructor | src/splitter.py:18-47 | the margins are converted to milliseconds; the duration and the initial directory are parameters |
| Splitter.AudioSplitter.ClipStart | src/splitter.py:197 | the clip start is the larger of 0 and the segment start less the margin: it is at least both, and equal to one of them |
| Splitter.AudioSplitter.ClipEnd | src/splitter.py:198 | the clip end is the smaller of the audio's duration and the segment end plus the margin: it is at most both, and equal to one of them |
| Splitter.AudioSplitter.GenerateFilename | src/splitter.py:257-276 | the name is the segment's key-and-text file name |
| Splitter.AudioSplitter.ExportSegment | src/splitter.py:176-220 | the returned name is the one `generate_filename` gives; the clip bounds are the clipped ones; the directory gains that name |
| Splitter.AudioSplitter.RenameFile | src/splitter.py:222-239 | succeeds exactly when the old name exists, and then the old name is gone and the new one present; otherwise nothing changes |
| Splitter.AudioSplitter.DeleteFile | src/splitter.py:241-255 | succeeds exactly when the name exists, and afterwards the name is absent |
| Splitter.AudioSplitter.SplitAndSave | src/splitter.py:49-118 | the records are the sequentially numbered ones, with the digit width computed from the count when none is given, and the directory gains exactly their file names |
| Splitter.AudioSplitter.GenerateMetadataOnly | src/splitter.py:120-142 | one record per segment, in order, with the segment's times and text and no key or file name |
| Splitter.AudioSplitter.AssignIndices | src/splitter.py:278-350 | the loop's result is the keyed working set of the specification |
| Diff.FileNamingKeys | split.py:115-119 | the name the run gives a keyed segment reads back as its key |
| Diff.Lookup | split.py:93-94 | looking up an id finds a record with that id, and finds none exactly when no record has it |
| Diff.ChangesOf | split.py:125 | an id with an edit entry gets that entry's changes (the first, for a sequence that repeats the id); an id without one has no changes; a non-empty change set belongs to an entry with that id |
| Diff.DeletePassExactly | split.py:91-103 | the deletion pass removes exactly the existing target files and reports each removed file once |
| Diff.DeletionsExactly | split.py:90-103 | `deleted` holds exactly the existing files named by a previous keyed record marked deleted, each once, and the directory loses exactly those |
| Diff.DeletionIgnoresForce | split.py:90-103 | the deletion step is the same with or without `force` |
| Diff.ResultRecord | split.py:178-185 | the record written back keeps the id, times, text and key, and has no file name, so it is not confirmed |
| Diff.StepEffect | split.py:127-176 | case by case: without a previous record the segment is exported; with changed times (an edited start or end, or a move of more than 0.001 s) it is exported, after its old file is deleted if the name changed; with unchanged times but edited text or a new name it is renamed, and not exported, when the old file exists, and exported when it does not; otherwise it is only counted as skipped and no file changes; in every case its record is appended |
| Diff.UnchangedPassSkips | split.py:127-168 | a pass over segments whose name, times and text match their previous records, with no edits, skips them all: no file is touched and nothing is exported or renamed |
| Diff.RenameChainOverwrites | split.py:154-165 | two renames in a chain report both renames, but only the last name remains, and the first segment's new name no longer exists |
| Diff.ExportPassAccounts | split.py:144-185 | the exported, renamed and skipped counts add up to the number of segments, and the result holds one record per segment, in order |
| Diff.ExportPassWithoutPrior | split.py:169-176 | without previous records every segment is exported under its name, in order, and none is renamed or skipped |
| Diff.ExportPassWithoutPriorFiles | split.py:169-176 | without previous records the directory gains exactly the segments' names |
| Diff.WorkingSetIds | split.py:105-114 | the keyed working set has exactly the ids of the merged segments, one entry per segment |
| Diff.ExportDiffAccounts | split.py:113-114 | the result has one record per merged segment, in start order, each the re-keyed segment without a file name, and exported + renamed + skipped equals the number of segments |
| Diff.ForceExportsAll | split.py:105-110 | with `force` every merged segment is exported under its new name, in start order, and none is renamed or skipped |
| Diff.ForceExportsFiles | split.py:169-176 | with `force` the directory after deletion gains exactly the new names of the merged segments |
| Diff.ResultHasNoAnchors | split.py:178-185 | no record written back is confirmed, so a later run keeps none of these keys |
| Diff.ProcessItem | split.py:127-185 | one iteration of the loop leaves the directory and the tally as the step function says, keeping the source's check for a failed rename |
| Diff.DeleteMarked | split.py:90-103 | the deletion loop leaves the directory and the `deleted` list as the deletion pass says |
| Diff.ExportKeyed | split.py:112-185 | the loop over the keyed segments leaves the directory and the tally as the pass says |
| Diff.ExportDiff | split.py:61-193 | the directory and the result dictionary are those of the specification of the whole run, with the splitter's own naming |
| JsonLoader.GetLast | src/json_loader.py:30-35 | reading a key finds the value of its last occurrence, as parsing a JSON object keeps the last duplicate |
| JsonLoader.ValidateTranscriptExactly | src/json_loader.py:30-37 | a missing `source_file`, then a missing `segments`, then a non-list `segments` each raise their own error, exactly in those cases; data that passes is returned unchanged |
| JsonLoader.Project | src/json_loader.py:57-61 | the projected segment has the three required fields |
| JsonLoader.ProjectKeepsFields | src/json_loader.py:57-61 | the projected segment has exactly three members, whose `start`, `end` and `text` are those of the input |
| JsonLoader.WhisperFormatSucceeds | src/json_loader.py:52-56 | the conversion succeeds exactly when every segment has `start`, `end` and `text` |
| JsonLoader.WhisperFormatProjects | src/json_loader.py:52-63 | on success the output has the input's length and order, and each element is the projection of the corresponding input |
| JsonLoader.WhisperFormatFailure | src/json_loader.py:54-55 | on failure the error names the first segment that lacks a field |
| JsonLoader.WhisperFailurePropagates | src/json_loader.py:52-55 | once a prefix fails, the whole list fails with the same error |
| JsonLoader.SegmentsToWhisperFormat | src/json_loader.py:40-63 | the loop returns the conversion of the specification, including its first error |

## Left out

- Audio: decoding, slicing and exporting through pydub, the format map, and directory
  creation are not modelled. A file is its name in a set; exporting adds the name, and
  overwriting an existing file leaves the set as it is.
- The audio duration is a constructor parameter, because the source measures it by
  decoding the file.
- `save_metadata`, `format_timestamp`, `setup_ffmpeg`, `get_audio_segment_class` and
  `find_available_port` are not modelled: they are file, float formatting, environment and
  socket I/O.
- `load_and_merge_segments` and `main` in `split.py` are not modelled: they read and write
  files.
- `merge_segments`, `load_edit_segments`, `save_edit_segments` and
  `delete_edit_segments` are not part of this model. The merged segments, the previous
  records and the edit map are inputs.
- Opening and parsing the JSON file in `load_transcript_json` is not modelled. The model
  starts from the parsed top-level object.
- JsonLoader.ValidateTranscript: a top-level value that is not an object is not modelled.
  In the source, `in` on a list or a string would test elements or substrings instead of
  keys.
- JsonLoader.WhisperFormat: a segment that is not an object is treated as lacking the
  fields. The source would raise a `TypeError` or test membership in a string instead.
- Extra fields of a segment dictionary are not modelled. A `Segment` has exactly start, end,
  text, index, index_sub and filename, and the records the source builds carry only those.
- Diff.ExportDiff requires every previous record of a merged id to have a key when `force`
  is off (`PrevKeyedIds`). The model has one `None` for both an absent and a null `index`,
  and the source treats them differently. A record without an `"index"` field makes
  `generate_filename` raise `KeyError`. A record with `"index": null` is named
  `None_<text><extension>`, because `str(None).zfill(...)` gives "None". The run then goes
  on: unless a file of that name exists, its deletion or rename fails and the segment is
  exported.
- Diff.FileNaming: a segment without a key gets the empty name. `generate_filename` raises
  for one, and the run never names one.
- Diff.Step: the truthiness test `if prev_seg` is modelled as "a previous record exists". An
  empty previous dictionary, which is falsy in the source, is not a possible `Segment`.
- Diff.ProcessItem: a rename that fails although the old file exists (a permission error or
  a race) is not modelled. In the model a rename fails exactly when the old file is
  missing, so the source's "neither renamed nor exported" outcome cannot happen.
- Splitter.AudioSplitter.RenameFile: a rename onto an existing name replaces it, as on POSIX.
  On Windows `Path.rename` raises instead.
- Duplicate ids: a dictionary has unique keys, but a sequence of entries can repeat one.
  Lookups take the first entry with the id, and the properties hold for any sequence.
- Splitter.AudioSplitter.AssignIndices: `assign_indices` in `src/splitter.py` at this revision calls
  `determine_index(before, after)` with the default three sub-key digits. The model passes
  the caller's `index_sub_digits`, as `split.py` expects.
- Naming.SanitizeTruncates: a negative `max_length`, which Python's slice counts from the end,
  is modelled by `Sanitize` (`PyPrefix`), but the lemma states the cut only for limits of 0 or
  more.
- Keys.Key: indices and sub-keys are `nat`. Python's ints can be negative (`str(-1).zfill(3)`
  is "-01"). The keys the source builds itself are never negative, since it counts from 1
  and `determine_index` on non-negative keys stays non-negative; a negative `index` read
  from a stored record cannot be represented in the model.
- Python's floats are not modelled: times are exact reals, so rounding of `seg["start"] *
  1000` and of the 0.001 tolerance is not captured.
