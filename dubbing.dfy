/** The audio stage of the dubbing script with every clip modelled as its length in
    milliseconds: the per-record duration reconciler (step 4), the stable sort by start time
    and the assembly loop that lays the clips out on one track (step 5). */
module Dubbing {
  import opened Results
  import opened Sbv

  /** A record after step 4: its subtitle window and the length of its adjusted clip. */
  datatype Dubbed = Dubbed(startMs: int, endMs: int, clipMs: nat)

  /** The length of AudioSegment.silent(duration=d): d milliseconds, nothing when d <= 0. */
  function SilenceMs(d: int): nat {
    if d > 0 then d else 0
  }

  // ---------------------------------------------------------------------------
  // Step 4: fitting each clip to its window

  /** The adjusted clip's length for a record whose synthesized clip is clipMs long. An
      empty clip becomes silence as long as the window; a non-empty clip is resampled by
      original / desired, which divides by zero on an empty window; resampledMs stands for
      the length the resampling gives. */
  function Reconcile(startMs: int, endMs: int, clipMs: nat, resampledMs: nat): (r: Result<nat>)
    ensures r.Failure? <==> clipMs != 0 && endMs == startMs
    ensures r.Failure? ==> r.error == ZeroDivision
    ensures clipMs == 0 && startMs <= endMs ==> r == Success(endMs - startMs)
    ensures clipMs == 0 && endMs < startMs ==> r == Success(0)
    ensures clipMs != 0 && endMs != startMs ==> r == Success(resampledMs)
  {
    var desiredDuration := endMs - startMs;
    if clipMs == 0 then Success(SilenceMs(desiredDuration))
    else if desiredDuration == 0 then Failure(ZeroDivision)
    else Success(resampledMs)
  }

  /** The loop of step 4 over the records: clips[k] is the length of the clip synthesized
      for record k and resampled[k] the length its resampling gives. The first record whose
      clip cannot be fitted stops the loop with ZeroDivisionError. */
  method AdjustAll(subs: seq<Cue>, clips: seq<nat>, resampled: seq<nat>) returns (r: Result<seq<Dubbed>>)
    requires |clips| == |subs| && |resampled| == |subs|
    ensures r.Success? <==>
      forall k :: 0 <= k < |subs| ==> !(clips[k] != 0 && subs[k].endMs == subs[k].startMs)
    ensures r.Failure? ==> r.error == ZeroDivision
    ensures r.Success? ==> |r.value| == |subs| && forall k :: 0 <= k < |subs| ==>
      r.value[k] == Dubbed(subs[k].startMs, subs[k].endMs,
                           Reconcile(subs[k].startMs, subs[k].endMs, clips[k], resampled[k]).value)
  {
    var adjusted: seq<Dubbed> := [];
    for i := 0 to |subs|
      invariant |adjusted| == i
      invariant forall k :: 0 <= k < i ==> !(clips[k] != 0 && subs[k].endMs == subs[k].startMs)
      invariant forall k :: 0 <= k < i ==>
        adjusted[k] == Dubbed(subs[k].startMs, subs[k].endMs,
                              Reconcile(subs[k].startMs, subs[k].endMs, clips[k], resampled[k]).value)
    {
      var fitted := Reconcile(subs[i].startMs, subs[i].endMs, clips[i], resampled[i]);
      if fitted.Failure? {
        return Failure(fitted.error);
      }
      adjusted := adjusted + [Dubbed(subs[i].startMs, subs[i].endMs, fitted.value)];
    }
    return Success(adjusted);
  }

  // ---------------------------------------------------------------------------
  // sorted(subtitles, key=start_ms)

  ghost predicate Sorted(s: seq<Dubbed>) {
    forall i, j :: 0 <= i < j < |s| ==> s[i].startMs <= s[j].startMs
  }

  /** Places x in front of the first record that starts no earlier than x. */
  function Insert(x: Dubbed, s: seq<Dubbed>): seq<Dubbed> {
    if s == [] || x.startMs <= s[0].startMs then [x] + s
    else [s[0]] + Insert(x, s[1..])
  }

  /** Python's sorted() by start time: a stable sort, here an insertion sort. */
  function SortByStart(s: seq<Dubbed>): seq<Dubbed> {
    if s == [] then [] else Insert(s[0], SortByStart(s[1..]))
  }

  /** The records of s that start at v, in their order in s. */
  function StartingAt(s: seq<Dubbed>, v: int): seq<Dubbed> {
    if s == [] then []
    else (if s[0].startMs == v then [s[0]] else []) + StartingAt(s[1..], v)
  }

  /** Insert adds x to the records and loses none. */
  lemma {:induction false} InsertPermutes(x: Dubbed, s: seq<Dubbed>)
    ensures multiset(Insert(x, s)) == multiset(s) + multiset{x}
  {
    if s != [] && x.startMs > s[0].startMs {
      InsertPermutes(x, s[1..]);
      assert s == [s[0]] + s[1..];
    }
  }

  /** Every record of Insert(x, s) starts no earlier than a bound that x and all of s respect. */
  lemma {:induction false} InsertBounded(x: Dubbed, s: seq<Dubbed>, b: int)
    requires b <= x.startMs && forall k :: 0 <= k < |s| ==> b <= s[k].startMs
    ensures forall k :: 0 <= k < |Insert(x, s)| ==> b <= Insert(x, s)[k].startMs
  {
    if s != [] && x.startMs > s[0].startMs {
      InsertBounded(x, s[1..], b);
    }
  }

  /** Inserting into sorted records keeps them sorted. */
  lemma {:induction false} InsertSorted(x: Dubbed, s: seq<Dubbed>)
    requires Sorted(s)
    ensures Sorted(Insert(x, s))
  {
    var r := Insert(x, s);
    if s == [] || x.startMs <= s[0].startMs {
      forall i, j | 0 <= i < j < |r| ensures r[i].startMs <= r[j].startMs {
        if i > 0 {
          assert r[i] == s[i - 1];
        }
        assert r[j] == s[j - 1];
      }
    } else {
      var rest := Insert(x, s[1..]);
      InsertSorted(x, s[1..]);
      InsertBounded(x, s[1..], s[0].startMs);
      forall i, j | 0 <= i < j < |r| ensures r[i].startMs <= r[j].startMs {
        assert r[j] == rest[j - 1];
        if i > 0 {
          assert r[i] == rest[i - 1];
        }
      }
    }
  }

  lemma StartingAtCons(y: Dubbed, t: seq<Dubbed>, v: int)
    ensures StartingAt([y] + t, v) == (if y.startMs == v then [y] else []) + StartingAt(t, v)
  {
    assert ([y] + t)[1..] == t;
  }

  /** Among the records starting at x's time x comes first, and the records starting at
      any other time are untouched. */
  lemma {:induction false} InsertStable(x: Dubbed, s: seq<Dubbed>)
    ensures forall v :: StartingAt(Insert(x, s), v) == (if v == x.startMs then [x] else []) + StartingAt(s, v)
  {
    if s == [] || x.startMs <= s[0].startMs {
      forall v ensures StartingAt(Insert(x, s), v) == (if v == x.startMs then [x] else []) + StartingAt(s, v) {
        StartingAtCons(x, s, v);
      }
    } else {
      var rest := Insert(x, s[1..]);
      InsertStable(x, s[1..]);
      assert s == [s[0]] + s[1..];
      forall v ensures StartingAt(Insert(x, s), v) == (if v == x.startMs then [x] else []) + StartingAt(s, v) {
        StartingAtCons(s[0], rest, v);
        StartingAtCons(s[0], s[1..], v);
      }
    }
  }

  /** sorted() by start time returns the records ordered by start, as a permutation of its
      input, and keeps records with the same start in their input order. */
  lemma {:induction false} SortByStartCorrect(s: seq<Dubbed>)
    ensures Sorted(SortByStart(s))
    ensures multiset(SortByStart(s)) == multiset(s)
    ensures forall v :: StartingAt(SortByStart(s), v) == StartingAt(s, v)
  {
    if s != [] {
      SortByStartCorrect(s[1..]);
      InsertSorted(s[0], SortByStart(s[1..]));
      InsertPermutes(s[0], SortByStart(s[1..]));
      InsertStable(s[0], SortByStart(s[1..]));
      assert s == [s[0]] + s[1..];
      forall v ensures StartingAt(SortByStart(s), v) == StartingAt(s, v) {
        StartingAtCons(s[0], s[1..], v);
      }
    }
  }

  // ---------------------------------------------------------------------------
  // Step 5: the track

  /** A piece of main_audio: inserted silence, or a record's adjusted clip. */
  datatype Segment = Silence(ms: nat) | Clip(rec: Dubbed)

  function SegmentMs(g: Segment): nat {
    match g
    case Silence(n) => n
    case Clip(r) => r.clipMs
  }

  /** len(main_audio): the lengths of the pieces added up. */
  function TrackMs(track: seq<Segment>): nat {
    if track == [] then 0 else SegmentMs(track[0]) + TrackMs(track[1..])
  }

  /** The records whose clips the track plays, in order. */
  function Clips(track: seq<Segment>): seq<Dubbed> {
    if track == [] then []
    else (if track[0].Clip? then [track[0].rec] else []) + Clips(track[1..])
  }

  /** Where each clip of the track starts, for a track that itself starts at `at`. */
  function ClipOffsets(track: seq<Segment>, at: int): seq<int> {
    if track == [] then []
    else (if track[0].Clip? then [at] else []) + ClipOffsets(track[1..], at + SegmentMs(track[0]))
  }

  /** What one pass of the assembly loop adds: silence up to the record's start when that
      lies after the previous end, then the record's clip. */
  function Step(r: Dubbed, previousEnd: int): seq<Segment> {
    (if r.startMs > previousEnd then [Silence(r.startMs - previousEnd)] else []) + [Clip(r)]
  }

  /** The track the assembly loop builds from sorted records, with previous_end starting at
      previousEnd. */
  function Timeline(s: seq<Dubbed>, previousEnd: int): seq<Segment> {
    if s == [] then [] else Step(s[0], previousEnd) + Timeline(s[1..], s[0].endMs)
  }

  /** Sum of the clip lengths. */
  function ClipSum(s: seq<Dubbed>): nat {
    if s == [] then 0 else s[0].clipMs + ClipSum(s[1..])
  }

  /** Sum of max(0, start - previous_end) over the records, previous_end being the end of
      the record before, or previousEnd for the first. */
  function GapSum(s: seq<Dubbed>, previousEnd: int): nat {
    if s == [] then 0 else SilenceMs(s[0].startMs - previousEnd) + GapSum(s[1..], s[0].endMs)
  }

  /** Step 5: sort, then walk the records with the previous_end cursor, adding silence and
      the clip for each. */
  method Assemble(recs: seq<Dubbed>) returns (track: seq<Segment>)
    ensures track == Timeline(SortByStart(recs), 0)
  {
    var sorted := SortByStart(recs);
    track := [];
    var previousEnd := 0;
    for i := 0 to |sorted|
      invariant track + Timeline(sorted[i..], previousEnd) == Timeline(sorted, 0)
    {
      assert sorted[i..][1..] == sorted[i + 1..];
      var startMs := sorted[i].startMs;
      ghost var before := track;
      ghost var rest := Timeline(sorted[i + 1..], sorted[i].endMs);
      if startMs > previousEnd {
        track := track + [Silence(startMs - previousEnd)];
      }
      track := track + [Clip(sorted[i])];
      StepAppended(before, track, sorted[i], previousEnd, rest);
      previousEnd := sorted[i].endMs;
    }
    assert sorted[|sorted|..] == [];
    assert track + [] == track;
  }

  /** What one pass appends to the track is Step. */
  lemma StepAppended(before: seq<Segment>, track: seq<Segment>, r: Dubbed, previousEnd: int, rest: seq<Segment>)
    requires track == (if r.startMs > previousEnd then before + [Silence(r.startMs - previousEnd)] else before) + [Clip(r)]
    ensures before + (Step(r, previousEnd) + rest) == track + rest
  {
    if r.startMs > previousEnd {
      assert track == before + ([Silence(r.startMs - previousEnd)] + [Clip(r)]);
    } else {
      assert track == before + ([] + [Clip(r)]);
    }
  }

  lemma HeadTail<T>(a: seq<T>, b: seq<T>)
    requires a != []
    ensures (a + b)[0] == a[0] && (a + b)[1..] == a[1..] + b
  {
  }

  lemma {:induction false} ConcatTrackMs(a: seq<Segment>, b: seq<Segment>)
    ensures TrackMs(a + b) == TrackMs(a) + TrackMs(b)
  {
    if a == [] {
      assert a + b == b;
    } else {
      ConcatTrackMs(a[1..], b);
      HeadTail(a, b);
    }
  }

  lemma {:induction false} ConcatClips(a: seq<Segment>, b: seq<Segment>)
    ensures Clips(a + b) == Clips(a) + Clips(b)
  {
    if a == [] {
      assert a + b == b;
    } else {
      ConcatClips(a[1..], b);
      HeadTail(a, b);
    }
  }

  lemma {:induction false} ConcatOffsets(a: seq<Segment>, b: seq<Segment>, at: int)
    ensures ClipOffsets(a + b, at) == ClipOffsets(a, at) + ClipOffsets(b, at + TrackMs(a))
  {
    if a == [] {
      assert a + b == b;
    } else {
      ConcatOffsets(a[1..], b, at + SegmentMs(a[0]));
      HeadTail(a, b);
    }
  }

  /** A track put together from two parts: lengths add up, the clips of the second part
      follow those of the first and start later by the first part's length. */
  lemma ConcatTrack(a: seq<Segment>, b: seq<Segment>, at: int)
    ensures TrackMs(a + b) == TrackMs(a) + TrackMs(b)
    ensures Clips(a + b) == Clips(a) + Clips(b)
    ensures ClipOffsets(a + b, at) == ClipOffsets(a, at) + ClipOffsets(b, at + TrackMs(a))
  {
    ConcatTrackMs(a, b);
    ConcatClips(a, b);
    ConcatOffsets(a, b, at);
  }

  /** One pass of the loop: the silence it adds, if any, then the record's clip. */
  lemma StepTrack(r: Dubbed, previousEnd: int, at: int)
    ensures TrackMs(Step(r, previousEnd)) == SilenceMs(r.startMs - previousEnd) + r.clipMs
    ensures Clips(Step(r, previousEnd)) == [r]
    ensures ClipOffsets(Step(r, previousEnd), at) == [at + SilenceMs(r.startMs - previousEnd)]
    ensures forall i :: 0 <= i < |Step(r, previousEnd)| && Step(r, previousEnd)[i].Silence? ==>
      Step(r, previousEnd)[i].ms > 0
  {
    var t := Step(r, previousEnd);
    var c: seq<Segment> := [Clip(r)];
    assert c[0] == Clip(r) && c[1..] == [];
    assert TrackMs(c) == SegmentMs(c[0]) + TrackMs([]);
    assert Clips(c) == [r] + Clips([]);
    if r.startMs > previousEnd {
      var g := r.startMs - previousEnd;
      assert t == [Silence(g)] + c && t[1..] == c;
      assert ClipOffsets(t, at) == ClipOffsets(c, at + g);
    } else {
      assert t == c;
    }
  }

  /** The track plays every record's clip once, in the order of the records. */
  lemma {:induction false} TimelineClips(s: seq<Dubbed>, previousEnd: int)
    ensures Clips(Timeline(s, previousEnd)) == s
  {
    if s != [] {
      TimelineClips(s[1..], s[0].endMs);
      StepTrack(s[0], previousEnd, 0);
      ConcatTrack(Step(s[0], previousEnd), Timeline(s[1..], s[0].endMs), 0);
      assert [s[0]] + s[1..] == s;
    }
  }

  /** Silence is only inserted where it is strictly positive. */
  lemma {:induction false} TimelineGaps(s: seq<Dubbed>, previousEnd: int)
    ensures forall i :: 0 <= i < |Timeline(s, previousEnd)| && Timeline(s, previousEnd)[i].Silence? ==>
      Timeline(s, previousEnd)[i].ms > 0
  {
    if s != [] {
      TimelineGaps(s[1..], s[0].endMs);
      StepTrack(s[0], previousEnd, 0);
      var a: seq<Segment>, b: seq<Segment> := Step(s[0], previousEnd), Timeline(s[1..], s[0].endMs);
      forall i | 0 <= i < |a + b| && (a + b)[i].Silence? ensures (a + b)[i].ms > 0 {
        if i >= |a| {
          assert (a + b)[i] == b[i - |a|];
        }
      }
    }
  }

  /** The track is as long as all the clips plus all the inserted silences. */
  lemma {:induction false} TimelineLength(s: seq<Dubbed>, previousEnd: int)
    ensures TrackMs(Timeline(s, previousEnd)) == ClipSum(s) + GapSum(s, previousEnd)
  {
    if s != [] {
      TimelineLength(s[1..], s[0].endMs);
      StepTrack(s[0], previousEnd, 0);
      ConcatTrack(Step(s[0], previousEnd), Timeline(s[1..], s[0].endMs), 0);
    }
  }

  lemma {:induction false} InsertClipSum(x: Dubbed, s: seq<Dubbed>)
    ensures ClipSum(Insert(x, s)) == x.clipMs + ClipSum(s)
  {
    if s != [] && x.startMs > s[0].startMs {
      InsertClipSum(x, s[1..]);
      assert Insert(x, s)[1..] == Insert(x, s[1..]);
    } else {
      assert Insert(x, s)[1..] == s;
    }
  }

  /** Sorting does not change the total clip length. */
  lemma {:induction false} SortClipSum(s: seq<Dubbed>)
    ensures ClipSum(SortByStart(s)) == ClipSum(s)
  {
    if s != [] {
      SortClipSum(s[1..]);
      InsertClipSum(s[0], SortByStart(s[1..]));
    }
  }

  /** What step 5 promises: the track plays the records' clips sorted by start, stably,
      with only strictly positive silences in between, and is as long as all the clips
      together plus the silences max(0, start - previous_end). */
  lemma AssembledTrack(recs: seq<Dubbed>)
    ensures var sorted, track := SortByStart(recs), Timeline(SortByStart(recs), 0);
      && Clips(track) == sorted && Sorted(sorted) && multiset(sorted) == multiset(recs)
      && (forall v :: StartingAt(sorted, v) == StartingAt(recs, v))
      && (forall i :: 0 <= i < |track| && track[i].Silence? ==> track[i].ms > 0)
      && TrackMs(track) == ClipSum(recs) + GapSum(sorted, 0)
  {
    var sorted := SortByStart(recs);
    SortByStartCorrect(recs);
    TimelineClips(sorted, 0);
    TimelineGaps(sorted, 0);
    TimelineLength(sorted, 0);
    SortClipSum(recs);
  }

  /** Each clip lasts exactly its subtitle window. */
  ghost predicate FitsWindow(s: seq<Dubbed>) {
    forall k :: 0 <= k < |s| ==> s[k].startMs <= s[k].endMs && s[k].clipMs == s[k].endMs - s[k].startMs
  }

  lemma FitsPermuted(a: seq<Dubbed>, b: seq<Dubbed>)
    requires multiset(a) == multiset(b) && FitsWindow(b)
    ensures FitsWindow(a)
  {
    forall k | 0 <= k < |a| ensures a[k].startMs <= a[k].endMs && a[k].clipMs == a[k].endMs - a[k].startMs {
      assert a[k] in multiset(b);
      var j :| 0 <= j < |b| && b[j] == a[k];
    }
  }

  /** With clips that fill their windows, no clip starts before its subtitle: for a track
      starting at `at` no earlier than previousEnd, each clip starts at or after its
      record's start, and the track ends at or after the last record's end. */
  lemma {:induction false} NeverEarly(s: seq<Dubbed>, previousEnd: int, at: int)
    requires FitsWindow(s) && previousEnd <= at
    ensures |ClipOffsets(Timeline(s, previousEnd), at)| == |s|
    ensures forall k :: 0 <= k < |s| ==> s[k].startMs <= ClipOffsets(Timeline(s, previousEnd), at)[k]
    ensures s != [] ==> s[|s| - 1].endMs <= at + TrackMs(Timeline(s, previousEnd))
  {
    if s != [] {
      var gap := SilenceMs(s[0].startMs - previousEnd);
      var next := at + gap + s[0].clipMs;
      TimelineHead(s, previousEnd, at);
      NeverEarly(s[1..], s[0].endMs, next);
      var offsets := ClipOffsets(Timeline(s, previousEnd), at);
      forall k | 0 <= k < |s| ensures s[k].startMs <= offsets[k] {
        if k > 0 {
          assert s[k] == s[1..][k - 1];
        }
      }
    }
  }

  /** The first record's silence and clip, then the rest of the timeline. */
  lemma TimelineHead(s: seq<Dubbed>, previousEnd: int, at: int)
    requires s != []
    ensures var gap := SilenceMs(s[0].startMs - previousEnd);
      && TrackMs(Timeline(s, previousEnd)) == gap + s[0].clipMs + TrackMs(Timeline(s[1..], s[0].endMs))
      && ClipOffsets(Timeline(s, previousEnd), at) ==
         [at + gap] + ClipOffsets(Timeline(s[1..], s[0].endMs), at + gap + s[0].clipMs)
  {
    StepTrack(s[0], previousEnd, at);
    ConcatTrack(Step(s[0], previousEnd), Timeline(s[1..], s[0].endMs), at);
  }

  /** Records in order that do not overlap (each ends by the next one's start), with clips
      that fill their windows: every clip starts exactly at its record's start, offset by
      where the track starts, and the track ends exactly at the last record's end. */
  lemma {:induction false} OnTime(s: seq<Dubbed>, previousEnd: int, at: int)
    requires FitsWindow(s) && s != [] && previousEnd <= s[0].startMs
    requires forall k :: 0 <= k < |s| - 1 ==> s[k].endMs <= s[k + 1].startMs
    ensures |ClipOffsets(Timeline(s, previousEnd), at)| == |s|
    ensures forall k :: 0 <= k < |s| ==> ClipOffsets(Timeline(s, previousEnd), at)[k] == at + s[k].startMs - previousEnd
    ensures TrackMs(Timeline(s, previousEnd)) == s[|s| - 1].endMs - previousEnd
  {
    TimelineHead(s, previousEnd, at);
    if |s| == 1 {
      assert s[1..] == [];
    } else {
      var next := at + s[0].endMs - previousEnd;
      OnTime(s[1..], s[0].endMs, next);
      var offsets := ClipOffsets(Timeline(s, previousEnd), at);
      forall k | 0 <= k < |s| ensures offsets[k] == at + s[k].startMs - previousEnd {
        if k > 0 {
          assert s[k] == s[1..][k - 1];
        }
      }
    }
  }

  /** The whole of step 5 for non-overlapping records with clips that fill their windows
      and that start at or after zero: each clip plays exactly at its record's start and
      the track is exactly as long as the last record's end. */
  lemma AssembledOnTime(recs: seq<Dubbed>)
    requires var sorted := SortByStart(recs);
      && recs != [] && FitsWindow(recs) && sorted[0].startMs >= 0
      && forall k :: 0 <= k < |sorted| - 1 ==> sorted[k].endMs <= sorted[k + 1].startMs
    ensures var sorted, track := SortByStart(recs), Timeline(SortByStart(recs), 0);
      && |ClipOffsets(track, 0)| == |sorted|
      && (forall k :: 0 <= k < |sorted| ==> ClipOffsets(track, 0)[k] == sorted[k].startMs)
      && TrackMs(track) == sorted[|sorted| - 1].endMs
  {
    var sorted := SortByStart(recs);
    SortByStartCorrect(recs);
    FitsPermuted(sorted, recs);
    OnTime(sorted, 0, 0);
  }
}
