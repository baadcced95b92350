/**
 * `src/json_loader.py`: the checks `load_transcript_json` makes on a parsed transcript, and
 * `segments_to_whisper_format`, which reduces each transcript segment to the fields Whisper
 * output has.
 */
module JsonLoader {
  import opened Wrappers

  /** A parsed JSON value; an object keeps its members in file order. */
  datatype Json =
    | JNull
    | JBool(b: bool)
    | JNumber(n: real)
    | JString(s: string)
    | JArray(items: seq<Json>)
    | JObject(members: seq<Member>)

  datatype Member = Member(key: string, value: Json)

  /** The `ValueError`s the two operations raise. */
  datatype LoadError =
    | MissingSourceFile
    | MissingSegments
    | SegmentsNotList
    | SegmentMissingFields(segment: Json)

  /** `key in obj`. */
  predicate Has(members: seq<Member>, key: string)
  {
    exists i :: 0 <= i < |members| && members[i].key == key
  }

  /** `obj[key]`: the last member with that key, as `json.load` keeps the last duplicate. */
  function Get(members: seq<Member>, key: string): Json
    requires Has(members, key)
  {
    var n := |members| - 1;
    if members[n].key == key then members[n].value
    else
      assert Has(members[..n], key) by {
        var i :| 0 <= i < |members| && members[i].key == key;
        assert members[..n][i].key == key;
      }
      Get(members[..n], key)
  }

  /** `Get` finds the value of the last member with the key. */
  lemma {:induction false} GetLast(members: seq<Member>, key: string)
    requires Has(members, key)
    ensures exists i :: 0 <= i < |members| && members[i] == Member(key, Get(members, key))
              && forall j :: i < j < |members| ==> members[j].key != key
    decreases |members|
  {
    var n := |members| - 1;
    if members[n].key == key {
      assert members[n] == Member(key, Get(members, key));
    } else {
      var init := members[..n];
      assert Has(init, key) by {
        var i :| 0 <= i < |members| && members[i].key == key;
        assert init[i].key == key;
      }
      assert Get(members, key) == Get(init, key);
      GetLast(init, key);
      var i :| 0 <= i < n && init[i] == Member(key, Get(init, key)) && forall j :: i < j < n ==> init[j].key != key;
      assert members[i] == Member(key, Get(members, key));
      forall j | i < j < |members|
        ensures members[j].key != key
      {
        if j < n {
          assert members[j] == init[j];
        }
      }
    }
  }

  // ---------------------------------------------------------------------------
  // load_transcript_json
  // ---------------------------------------------------------------------------

  /**
   * The checks `load_transcript_json` makes after parsing: "source_file" must be present,
   * then "segments", and "segments" must be a list; data that passes is returned as it is.
   */
  function ValidateTranscript(data: seq<Member>): (r: Result<seq<Member>, LoadError>)
  {
    if !Has(data, "source_file") then Failure(MissingSourceFile)
    else if !Has(data, "segments") then Failure(MissingSegments)
    else if !Get(data, "segments").JArray? then Failure(SegmentsNotList)
    else Success(data)
  }

  /** A transcript that passes validation. */
  predicate WellFormedTranscript(data: seq<Member>)
  {
    Has(data, "source_file") && Has(data, "segments") && Get(data, "segments").JArray?
  }

  /**
   * Validation accepts exactly the well-formed transcripts and returns them unchanged, and
   * each error names the first check that fails.
   */
  lemma ValidateTranscriptExactly(data: seq<Member>)
    ensures ValidateTranscript(data).Success? <==> WellFormedTranscript(data)
    ensures ValidateTranscript(data).Success? ==> ValidateTranscript(data).value == data
    ensures ValidateTranscript(data) == Failure(MissingSourceFile) <==> !Has(data, "source_file")
    ensures ValidateTranscript(data) == Failure(MissingSegments) <==> Has(data, "source_file") && !Has(data, "segments")
    ensures ValidateTranscript(data) == Failure(SegmentsNotList) <==>
              Has(data, "source_file") && Has(data, "segments") && !Get(data, "segments").JArray?
  {
  }

  // ---------------------------------------------------------------------------
  // segments_to_whisper_format
  // ---------------------------------------------------------------------------

  /** The segment has "start", "end" and "text"; one that is not an object has none of them. */
  predicate HasFields(seg: Json)
  {
    seg.JObject? && Has(seg.members, "start") && Has(seg.members, "end") && Has(seg.members, "text")
  }

  /** `{"start": seg["start"], "end": seg["end"], "text": seg["text"]}`. */
  function Project(seg: Json): (w: Json)
    requires HasFields(seg)
    ensures HasFields(w)
  {
    var w := JObject([Member("start", Get(seg.members, "start")), Member("end", Get(seg.members, "end")),
                      Member("text", Get(seg.members, "text"))]);
    assert w.members[0].key == "start" && w.members[1].key == "end" && w.members[2].key == "text";
    w
  }

  /** The projection has exactly three members, carrying the input's start, end and text. */
  lemma ProjectKeepsFields(seg: Json)
    requires HasFields(seg)
    ensures var w := Project(seg);
      |w.members| == 3
      && Get(w.members, "start") == Get(seg.members, "start")
      && Get(w.members, "end") == Get(seg.members, "end")
      && Get(w.members, "text") == Get(seg.members, "text")
  {
    var ms := Project(seg).members;
    var m2 := ms[..2];
    var m1 := m2[..1];
    assert m1[0] == ms[0] && m2[1] == ms[1] && m2[0] == ms[0];
    assert Has(m2, "end") && Has(m2, "start") && Has(m1, "start");
    assert Get(ms, "end") == Get(m2, "end");
    assert Get(ms, "start") == Get(m2, "start") == Get(m1, "start");
  }

  /**
   * The list `segments_to_whisper_format` returns, or the error for the first segment that
   * lacks one of the fields.
   */
  function WhisperFormat(segments: seq<Json>): Result<seq<Json>, LoadError>
  {
    if segments == [] then Success([])
    else
      var last := segments[|segments| - 1];
      match WhisperFormat(segments[..|segments| - 1])
      case Failure(e) => Failure(e)
      case Success(ws) => if HasFields(last) then Success(ws + [Project(last)]) else Failure(SegmentMissingFields(last))
  }

  /** The conversion succeeds iff every segment has the three fields. */
  lemma {:induction false} WhisperFormatSucceeds(segments: seq<Json>)
    ensures WhisperFormat(segments).Success? <==> forall i :: 0 <= i < |segments| ==> HasFields(segments[i])
    decreases |segments|
  {
    if segments != [] {
      var n := |segments| - 1;
      var init := segments[..n];
      WhisperFormatSucceeds(init);
      if WhisperFormat(init).Failure? {
        var i :| 0 <= i < n && !HasFields(init[i]);
        assert !HasFields(segments[i]);
      } else if HasFields(segments[n]) {
        assert forall i :: 0 <= i < n ==> init[i] == segments[i];
      }
    }
  }

  /** When every segment has the three fields, the conversion is each segment's projection, in order. */
  lemma {:induction false} WhisperFormatProjects(segments: seq<Json>)
    requires forall i :: 0 <= i < |segments| ==> HasFields(segments[i])
    ensures WhisperFormat(segments).Success?
    ensures var ws := WhisperFormat(segments).value;
      |ws| == |segments| && forall i :: 0 <= i < |segments| ==> ws[i] == Project(segments[i])
    decreases |segments|
  {
    if segments != [] {
      var n := |segments| - 1;
      var init := segments[..n];
      assert forall i :: 0 <= i < n ==> init[i] == segments[i];
      WhisperFormatProjects(init);
      var ws := WhisperFormat(init).value;
      var out := ws + [Project(segments[n])];
      assert WhisperFormat(segments) == Success(out);
      forall i | 0 <= i < |segments|
        ensures out[i] == Project(segments[i])
      {
        if i < n {
          assert out[i] == ws[i];
        }
      }
    }
  }

  /** A failed conversion names the first segment that lacks a field. */
  lemma {:induction false} WhisperFormatFailure(segments: seq<Json>)
    ensures WhisperFormat(segments).Failure? ==>
      exists k :: 0 <= k < |segments| && !HasFields(segments[k])
        && WhisperFormat(segments).error == SegmentMissingFields(segments[k])
        && forall i :: 0 <= i < k ==> HasFields(segments[i])
    decreases |segments|
  {
    if segments != [] {
      var n := |segments| - 1;
      var init := segments[..n];
      WhisperFormatFailure(init);
      if WhisperFormat(init).Failure? {
        assert WhisperFormat(segments) == WhisperFormat(init);
        var k :| 0 <= k < n && !HasFields(init[k]) && WhisperFormat(init).error == SegmentMissingFields(init[k])
                 && forall i :: 0 <= i < k ==> HasFields(init[i]);
        assert init[k] == segments[k];
        assert forall i :: 0 <= i < k ==> init[i] == segments[i];
      } else {
        WhisperFormatSucceeds(init);
        assert forall i :: 0 <= i < n ==> init[i] == segments[i];
      }
    }
  }

  /** `segments_to_whisper_format(segments)`: one pass, raising at the first incomplete segment. */
  method SegmentsToWhisperFormat(segments: seq<Json>) returns (r: Result<seq<Json>, LoadError>)
    ensures r == WhisperFormat(segments)
  {
    var whisper := [];
    var i := 0;
    while i < |segments|
      invariant i <= |segments| && WhisperFormat(segments[..i]) == Success(whisper)
    {
      assert segments[..i + 1][..i] == segments[..i];
      var seg := segments[i];
      if !HasFields(seg) {
        WhisperFailurePropagates(segments, i + 1);
        return Failure(SegmentMissingFields(seg));
      }
      whisper := whisper + [Project(seg)];
      i := i + 1;
    }
    assert segments[..i] == segments;
    r := Success(whisper);
  }

  /** Once a prefix fails, the whole list fails with the same error. */
  lemma {:induction false} WhisperFailurePropagates(segments: seq<Json>, k: nat)
    requires k <= |segments| && WhisperFormat(segments[..k]).Failure?
    ensures WhisperFormat(segments) == WhisperFormat(segments[..k])
    decreases |segments| - k
  {
    if k < |segments| {
      assert segments[..k + 1][..k] == segments[..k];
      WhisperFailurePropagates(segments, k + 1);
    } else {
      assert segments[..k] == segments;
    }
  }
}
