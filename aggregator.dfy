/**
 * The generator inside `invoke_agent`: it walks the `completion` event stream
 * of one agent invocation, folds every event into the accumulated answer text,
 * citation list and trace map, and yields snapshots of that accumulator.
 */
module Aggregator {
  import opened Types

  const GuardrailTrace: string := "guardrailTrace"
  const PreProcessingTrace: string := "preProcessingTrace"
  const OrchestrationTrace: string := "orchestrationTrace"
  const PostProcessingTrace: string := "postProcessingTrace"
  const PreGuardrailTrace: string := "preGuardrailTrace"
  const PostGuardrailTrace: string := "postGuardrailTrace"

  /** The keys looked up in every trace event, in the order they are processed. */
  const TraceTypes: seq<string> := [GuardrailTrace, PreProcessingTrace, OrchestrationTrace, PostProcessingTrace]

  /** Trace categories that are filed under their own name. */
  const PlainTypes: set<string> := {PreProcessingTrace, OrchestrationTrace, PostProcessingTrace}

  /** Every key the accumulated trace map can hold. */
  const StoredTypes: set<string> := PlainTypes + {PreGuardrailTrace, PostGuardrailTrace}

  /** The `chunk` member of an event: decoded text and the optional `attribution` citations. */
  datatype Chunk = Chunk(fragment: string, attribution: Option<seq<Citation>>)

  /**
   * One event of the stream. An event may carry a chunk, a trace (the inner
   * `trace` object, keyed by category), both, or neither (any other event).
   */
  datatype Event = Event(chunk: Option<Chunk>, trace: Option<map<string, Record>>)

  /** The generator's local variables between two events. */
  datatype State = State(
    text: string,
    citations: seq<Citation>,
    trace: map<string, seq<Record>>,
    hasGuardrail: bool,
    chunkReceived: bool)

  /** What one `yield` hands to the caller. */
  datatype Snapshot = Snapshot(text: string, citations: seq<Citation>, trace: map<string, seq<Record>>)

  const Init: State := State("", [], map[], false, false)

  function SnapshotOf(s: State): Snapshot {
    Snapshot(s.text, s.citations, s.trace)
  }

  /**
   * What holds of every reachable state: only the five filed names occur as
   * keys (never the raw `guardrailTrace`), the pre-guardrail slot exists
   * exactly once a guardrail record has been seen, and the post-guardrail
   * slot holds a single record.
   */
  ghost predicate Inv(s: State) {
    && (forall k :: k in s.trace ==> k in StoredTypes)
    && (PreGuardrailTrace in s.trace <==> s.hasGuardrail)
    && (PreGuardrailTrace in s.trace ==> |s.trace[PreGuardrailTrace]| == 1)
    && (PostGuardrailTrace in s.trace ==> |s.trace[PostGuardrailTrace]| == 1)
  }

  /**
   * Files one record found under `traceType`. The first guardrail record goes
   * to the pre-guardrail slot and every later one to the post-guardrail slot.
   * The existence test looks at the unmapped name, which is never a key, so a
   * guardrail record always starts its slot afresh.
   */
  function AddRecord(s: State, traceType: string, rec: Record): (r: State)
    requires Inv(s) && traceType in TraceTypes
    ensures Inv(r)
  {
    var mapped :=
      if traceType != GuardrailTrace then traceType
      else if s.hasGuardrail then PostGuardrailTrace
      else PreGuardrailTrace;
    var list := if traceType in s.trace then s.trace[mapped] else [];
    s.(trace := s.trace[mapped := list + [rec]],
       hasGuardrail := s.hasGuardrail || traceType == GuardrailTrace)
  }

  /** The trace parts of one event under the first `n` names of `TraceTypes`, in that order. */
  function AddParts(s: State, parts: map<string, Record>, n: nat): (r: State)
    requires Inv(s) && n <= |TraceTypes|
    ensures Inv(r)
  {
    if n == 0 then s
    else
      var s' := AddParts(s, parts, n - 1);
      var t := TraceTypes[n - 1];
      if t in parts then AddRecord(s', t, parts[t]) else s'
  }

  /** One iteration of the loop over the stream, without the yield. */
  function Apply(s: State, e: Event): (r: State)
    requires Inv(s)
    ensures Inv(r)
  {
    var s1 :=
      match e.chunk
      case None => s
      case Some(c) =>
        s.(text := s.text + c.fragment,
           citations := if c.attribution.Some? then s.citations + c.attribution.value else s.citations,
           chunkReceived := true);
    if e.trace.Some? then AddParts(s1, e.trace.value, |TraceTypes|) else s1
  }

  /** The state after the given events. */
  function Run(events: seq<Event>): (s: State)
    ensures Inv(s)
  {
    if events == [] then Init
    else Apply(Run(events[..|events| - 1]), events[|events| - 1])
  }

  /** The snapshots yielded inside the loop while the given events are consumed. */
  function Emitted(events: seq<Event>): seq<Snapshot> {
    if events == [] then []
    else
      var s := Run(events);
      Emitted(events[..|events| - 1]) + if s.chunkReceived then [SnapshotOf(s)] else []
  }

  /** Everything the generator yields for a stream that ends after `events`. */
  function Snapshots(events: seq<Event>): seq<Snapshot> {
    Emitted(events) + [SnapshotOf(Run(events))]
  }

  /** The generator's state, updated in place event by event. */
  class Accumulator {
    var text: string
    var citations: seq<Citation>
    var trace: map<string, seq<Record>>
    var hasGuardrail: bool
    var chunkReceived: bool

    function Current(): State
      reads this
    {
      State(text, citations, trace, hasGuardrail, chunkReceived)
    }

    ghost predicate Valid()
      reads this
    {
      Inv(Current())
    }

    constructor ()
      ensures Valid() && Current() == Init
    {
      text := "";
      citations := [];
      trace := map[];
      hasGuardrail := false;
      chunkReceived := false;
    }

    /** Consumes one event; returns the snapshot yielded after it, if any. */
    method Step(e: Event) returns (snap: Option<Snapshot>)
      requires Valid()
      modifies this
      ensures Valid()
      ensures Current() == Apply(old(Current()), e)
      ensures snap == if chunkReceived then Some(SnapshotOf(Current())) else None
    {
      if e.chunk.Some? {
        var chunk := e.chunk.value;
        text := text + chunk.fragment;
        if chunk.attribution.Some? {
          citations := citations + chunk.attribution.value;
        }
        chunkReceived := true;
      }
      if e.trace.Some? {
        var parts := e.trace.value;
        ghost var s1 := Current();
        for i := 0 to |TraceTypes|
          invariant Valid()
          invariant Current() == AddParts(s1, parts, i)
        {
          var traceType := TraceTypes[i];
          if traceType in parts {
            FileRecord(traceType, parts[traceType]);
          }
        }
      }
      if chunkReceived {
        snap := Some(SnapshotOf(Current()));
      } else {
        snap := None;
      }
    }

    /** Files one trace record found under `traceType` (the body of the loop over the trace names). */
    method FileRecord(traceType: string, rec: Record)
      requires Valid() && traceType in TraceTypes
      modifies this
      ensures Valid()
      ensures Current() == AddRecord(old(Current()), traceType, rec)
    {
      var mapped := traceType;
      if traceType == GuardrailTrace {
        if !hasGuardrail {
          hasGuardrail := true;
          mapped := PreGuardrailTrace;
        } else {
          mapped := PostGuardrailTrace;
        }
      }
      if traceType !in trace {
        trace := trace[mapped := []];
      }
      trace := trace[mapped := trace[mapped] + [rec]];
    }
  }

  /** Runs the generator over a whole stream and collects what it yields. */
  method Aggregate(events: seq<Event>) returns (yielded: seq<Snapshot>)
    ensures yielded == Snapshots(events)
  {
    var acc := new Accumulator();
    yielded := [];
    for i := 0 to |events|
      invariant acc.Valid()
      invariant acc.Current() == Run(events[..i])
      invariant yielded == Emitted(events[..i])
    {
      assert events[..i + 1][..i] == events[..i];
      var snap := acc.Step(events[i]);
      if snap.Some? {
        yielded := yielded + [snap.value];
      }
    }
    assert events[..|events|] == events;
    yielded := yielded + [SnapshotOf(acc.Current())];
  }

  // ----- Reference definitions -----

  function FragmentOf(e: Event): string {
    if e.chunk.Some? then e.chunk.value.fragment else ""
  }

  function CitationsOf(e: Event): seq<Citation> {
    if e.chunk.Some? && e.chunk.value.attribution.Some? then e.chunk.value.attribution.value else []
  }

  function RecordsOf(e: Event, name: string): seq<Record> {
    if e.trace.Some? && name in e.trace.value then [e.trace.value[name]] else []
  }

  /** Every chunk fragment, in stream order. */
  function Fragments(events: seq<Event>): string {
    if events == [] then "" else FragmentOf(events[0]) + Fragments(events[1..])
  }

  /** Every attribution citation, in stream order, duplicates kept. */
  function AllCitations(events: seq<Event>): seq<Citation> {
    if events == [] then [] else CitationsOf(events[0]) + AllCitations(events[1..])
  }

  /** Every trace record carried under `name`, in stream order. */
  function Records(events: seq<Event>, name: string): seq<Record> {
    if events == [] then [] else RecordsOf(events[0], name) + Records(events[1..], name)
  }

  /** The index of the first chunk event, or the length of the stream when there is none. */
  function FirstChunk(events: seq<Event>): (k: nat)
    ensures k <= |events|
    ensures forall i :: 0 <= i < k ==> events[i].chunk.None?
    ensures k < |events| ==> events[k].chunk.Some?
  {
    if events == [] then 0
    else if events[0].chunk.Some? then 0
    else 1 + FirstChunk(events[1..])
  }

  // ----- One event -----

  lemma {:induction false} AddPartsKeeps(s: State, parts: map<string, Record>, n: nat)
    requires Inv(s) && n <= |TraceTypes|
    ensures var r := AddParts(s, parts, n);
      r.text == s.text && r.citations == s.citations && r.chunkReceived == s.chunkReceived
  {
    if n > 0 {
      AddPartsKeeps(s, parts, n - 1);
    }
  }

  /** A chunk appends its fragment and citations and sets the flag; nothing else touches them. */
  lemma ApplyChunk(s: State, e: Event)
    requires Inv(s)
    ensures var r := Apply(s, e);
      && r.text == s.text + FragmentOf(e)
      && r.citations == s.citations + CitationsOf(e)
      && r.chunkReceived == (s.chunkReceived || e.chunk.Some?)
  {
    var s1 :=
      match e.chunk
      case None => s
      case Some(c) =>
        s.(text := s.text + c.fragment,
           citations := if c.attribution.Some? then s.citations + c.attribution.value else s.citations,
           chunkReceived := true);
    assert s1.text == s.text + FragmentOf(e);
    assert s1.citations == s.citations + CitationsOf(e);
    if e.trace.Some? {
      AddPartsKeeps(s1, e.trace.value, |TraceTypes|);
    }
  }

  ghost predicate SameEntry(a: map<string, seq<Record>>, b: map<string, seq<Record>>, k: string) {
    (k in a <==> k in b) && (k in a ==> a[k] == b[k])
  }

  /** The list of a plain category after the parts under the first `n` trace names. */
  lemma {:induction false} AddPartsPlain(s: State, parts: map<string, Record>, n: nat, name: string)
    requires Inv(s) && n <= |TraceTypes| && name in PlainTypes
    ensures var t := AddParts(s, parts, n).trace;
      var u := if name in TraceTypes[..n] && name in parts then [parts[name]] else [];
      && (name in t <==> name in s.trace || u != [])
      && (name in t ==> t[name] == (if name in s.trace then s.trace[name] else []) + u)
  {
    if n > 0 {
      AddPartsPlain(s, parts, n - 1, name);
      assert TraceTypes[..n] == TraceTypes[..n - 1] + [TraceTypes[n - 1]];
      if TraceTypes[n - 1] == name {
        assert name !in TraceTypes[..n - 1];
      }
    }
  }

  /** The guardrail slots and flag after the parts under the first `n` trace names. */
  lemma {:induction false} AddPartsGuardrail(s: State, parts: map<string, Record>, n: nat)
    requires Inv(s) && n <= |TraceTypes|
    ensures var r := AddParts(s, parts, n);
      var u := if n > 0 && GuardrailTrace in parts then [parts[GuardrailTrace]] else [];
      && r.hasGuardrail == (s.hasGuardrail || u != [])
      && (u == [] || s.hasGuardrail ==> SameEntry(r.trace, s.trace, PreGuardrailTrace))
      && (u == [] || !s.hasGuardrail ==> SameEntry(r.trace, s.trace, PostGuardrailTrace))
      && (u != [] && !s.hasGuardrail ==> PreGuardrailTrace in r.trace && r.trace[PreGuardrailTrace] == u)
      && (u != [] && s.hasGuardrail ==> PostGuardrailTrace in r.trace && r.trace[PostGuardrailTrace] == u)
  {
    if n > 0 {
      AddPartsGuardrail(s, parts, n - 1);
    }
  }

  lemma ApplyPlain(s: State, e: Event, name: string)
    requires Inv(s) && name in PlainTypes
    ensures var t := Apply(s, e).trace;
      var u := RecordsOf(e, name);
      && (name in t <==> name in s.trace || u != [])
      && (name in t ==> t[name] == (if name in s.trace then s.trace[name] else []) + u)
  {
    if e.trace.Some? {
      var s1 := if e.chunk.Some? then Apply(s, Event(e.chunk, None)) else s;
      assert Apply(s, e) == AddParts(s1, e.trace.value, |TraceTypes|);
      AddPartsPlain(s1, e.trace.value, |TraceTypes|, name);
      assert TraceTypes[..|TraceTypes|] == TraceTypes;
    }
  }

  lemma ApplyGuardrail(s: State, e: Event)
    requires Inv(s)
    ensures var r := Apply(s, e);
      var u := RecordsOf(e, GuardrailTrace);
      && r.hasGuardrail == (s.hasGuardrail || u != [])
      && (u == [] || s.hasGuardrail ==> SameEntry(r.trace, s.trace, PreGuardrailTrace))
      && (u == [] || !s.hasGuardrail ==> SameEntry(r.trace, s.trace, PostGuardrailTrace))
      && (u != [] && !s.hasGuardrail ==> PreGuardrailTrace in r.trace && r.trace[PreGuardrailTrace] == u)
      && (u != [] && s.hasGuardrail ==> PostGuardrailTrace in r.trace && r.trace[PostGuardrailTrace] == u)
  {
    if e.trace.Some? {
      var s1 := if e.chunk.Some? then Apply(s, Event(e.chunk, None)) else s;
      assert Apply(s, e) == AddParts(s1, e.trace.value, |TraceTypes|);
      AddPartsGuardrail(s1, e.trace.value, |TraceTypes|);
    }
  }

  // ----- Whole streams -----

  lemma {:induction false} FragmentsSnoc(events: seq<Event>, e: Event)
    ensures Fragments(events + [e]) == Fragments(events) + FragmentOf(e)
  {
    if events != [] {
      assert (events + [e])[1..] == events[1..] + [e];
      FragmentsSnoc(events[1..], e);
    }
  }

  lemma {:induction false} AllCitationsSnoc(events: seq<Event>, e: Event)
    ensures AllCitations(events + [e]) == AllCitations(events) + CitationsOf(e)
  {
    if events != [] {
      assert (events + [e])[1..] == events[1..] + [e];
      AllCitationsSnoc(events[1..], e);
    }
  }

  lemma {:induction false} RecordsSnoc(events: seq<Event>, e: Event, name: string)
    ensures Records(events + [e], name) == Records(events, name) + RecordsOf(e, name)
  {
    if events != [] {
      assert (events + [e])[1..] == events[1..] + [e];
      RecordsSnoc(events[1..], e, name);
    }
  }

  /** The answer text is the in-order concatenation of every chunk fragment. */
  lemma {:induction false} RunText(events: seq<Event>)
    ensures Run(events).text == Fragments(events)
  {
    if events != [] {
      var p := events[..|events| - 1];
      var e := events[|events| - 1];
      assert events == p + [e];
      RunText(p);
      ApplyChunk(Run(p), e);
      FragmentsSnoc(p, e);
    }
  }

  /** The citation list is the in-order concatenation of every chunk's attribution citations. */
  lemma {:induction false} RunCitations(events: seq<Event>)
    ensures Run(events).citations == AllCitations(events)
  {
    if events != [] {
      var p := events[..|events| - 1];
      var e := events[|events| - 1];
      assert events == p + [e];
      RunCitations(p);
      ApplyChunk(Run(p), e);
      AllCitationsSnoc(p, e);
    }
  }

  /** The chunk flag is set exactly when some event so far carried a chunk. */
  lemma {:induction false} RunChunkReceived(events: seq<Event>)
    ensures Run(events).chunkReceived <==> FirstChunk(events) < |events|
  {
    if events != [] {
      var p := events[..|events| - 1];
      var e := events[|events| - 1];
      RunChunkReceived(p);
      ApplyChunk(Run(p), e);
      var f, fp := FirstChunk(events), FirstChunk(p);
      assert forall k :: 0 <= k < |p| ==> events[k] == p[k];
    }
  }

  /**
   * The three plain categories keep every record in arrival order; a category
   * is present exactly when some record arrived for it.
   */
  lemma {:induction false} RunPlainTrace(events: seq<Event>, name: string)
    requires name in PlainTypes
    ensures var t := Run(events).trace;
      && (name in t <==> Records(events, name) != [])
      && (name in t ==> t[name] == Records(events, name))
  {
    if events != [] {
      var p := events[..|events| - 1];
      var e := events[|events| - 1];
      assert events == p + [e];
      RunPlainTrace(p, name);
      ApplyPlain(Run(p), e, name);
      RecordsSnoc(p, e, name);
    }
  }

  /**
   * The first guardrail record fills the pre-guardrail slot and stays there;
   * the post-guardrail slot holds only the latest of the later ones; the
   * guardrail flag is set from the first one on and never cleared.
   */
  lemma {:induction false} RunGuardrail(events: seq<Event>)
    ensures var s := Run(events);
      var g := Records(events, GuardrailTrace);
      && s.hasGuardrail == (|g| > 0)
      && (PreGuardrailTrace in s.trace <==> |g| > 0)
      && (|g| > 0 ==> s.trace[PreGuardrailTrace] == [g[0]])
      && (PostGuardrailTrace in s.trace <==> |g| > 1)
      && (|g| > 1 ==> s.trace[PostGuardrailTrace] == [g[|g| - 1]])
  {
    if events != [] {
      var p := events[..|events| - 1];
      var e := events[|events| - 1];
      assert events == p + [e];
      RunGuardrail(p);
      ApplyGuardrail(Run(p), e);
      RecordsSnoc(p, e, GuardrailTrace);
      var gp := Records(p, GuardrailTrace);
      if |gp| > 0 {
        assert Records(events, GuardrailTrace)[0] == gp[0];
      }
    }
  }

  /** The raw guardrail name never becomes a key, and nothing outside the five filed names does. */
  lemma RunKeys(events: seq<Event>)
    ensures forall k :: k in Run(events).trace ==> k in StoredTypes && k != GuardrailTrace
  {
  }

  // ----- Snapshots -----

  /**
   * Nothing is yielded before the first chunk; from that event on one
   * snapshot follows every event, and the i-th one shows the state after the
   * first chunk and the i events after it.
   */
  lemma {:induction false} EmittedAt(events: seq<Event>)
    ensures |Emitted(events)| == |events| - FirstChunk(events)
    ensures forall i :: 0 <= i < |Emitted(events)| ==>
      Emitted(events)[i] == SnapshotOf(Run(events[..FirstChunk(events) + 1 + i]))
  {
    if events != [] {
      var p := events[..|events| - 1];
      EmittedAt(p);
      RunChunkReceived(events);
      var f, fp := FirstChunk(events), FirstChunk(p);
      assert forall k :: 0 <= k < |p| ==> events[k] == p[k];
      assert fp < |p| ==> f == fp;
      assert fp == |p| ==> f >= |p|;
      forall i | 0 <= i < |Emitted(events)|
        ensures Emitted(events)[i] == SnapshotOf(Run(events[..f + 1 + i]))
      {
        if i < |Emitted(p)| {
          assert p[..fp + 1 + i] == events[..f + 1 + i];
        } else {
          assert events[..f + 1 + i] == events;
        }
      }
    }
  }

  /**
   * The final snapshot carries the whole answer: every fragment and every
   * citation, in order.
   */
  lemma FinalSnapshot(events: seq<Event>)
    ensures var snaps := Snapshots(events);
      && |snaps| == |events| - FirstChunk(events) + 1
      && snaps[|snaps| - 1].text == Fragments(events)
      && snaps[|snaps| - 1].citations == AllCitations(events)
  {
    EmittedCount(events);
    RunText(events);
    RunCitations(events);
  }

  /** The generator yields one snapshot per event from the first chunk on, plus the final one. */
  lemma EmittedCount(events: seq<Event>)
    ensures |Snapshots(events)| == |events| - FirstChunk(events) + 1
    ensures Emitted(events[..FirstChunk(events)]) == []
  {
    EmittedAt(events);
    var f := FirstChunk(events);
    var p := events[..f];
    EmittedAt(p);
    assert forall k :: 0 <= k < f ==> p[k] == events[k];
    assert FirstChunk(p) == f;
  }

  /** An earlier snapshot's text and citations are prefixes of a later one's, and no trace list shrinks. */
  ghost predicate Grows(a: Snapshot, b: Snapshot) {
    && a.text <= b.text
    && a.citations <= b.citations
    && forall k :: k in a.trace ==> k in b.trace && |a.trace[k]| <= |b.trace[k]|
  }

  lemma ApplyGrows(s: State, e: Event)
    requires Inv(s)
    ensures Grows(SnapshotOf(s), SnapshotOf(Apply(s, e)))
  {
    var r := Apply(s, e);
    ApplyChunk(s, e);
    ApplyGuardrail(s, e);
    forall k | k in s.trace
      ensures k in r.trace && |s.trace[k]| <= |r.trace[k]|
    {
      if k in PlainTypes {
        ApplyPlain(s, e, k);
      }
    }
  }

  lemma {:induction false} RunGrows(events: seq<Event>, i: nat, j: nat)
    requires i <= j <= |events|
    ensures Grows(SnapshotOf(Run(events[..i])), SnapshotOf(Run(events[..j])))
    decreases j
  {
    if i < j {
      RunGrows(events, i, j - 1);
      assert events[..j][..j - 1] == events[..j - 1];
      ApplyGrows(Run(events[..j - 1]), events[j - 1]);
    }
  }

  /** Snapshots only ever grow: every yielded snapshot extends the ones before it. */
  lemma SnapshotsGrow(events: seq<Event>, i: nat, j: nat)
    requires i <= j < |Snapshots(events)|
    ensures Grows(Snapshots(events)[i], Snapshots(events)[j])
  {
    EmittedAt(events);
    var f := FirstChunk(events);
    var n := |Emitted(events)|;
    var ki := if i < n then f + 1 + i else |events|;
    var kj := if j < n then f + 1 + j else |events|;
    assert events[..|events|] == events;
    assert Snapshots(events)[i] == SnapshotOf(Run(events[..ki]));
    assert Snapshots(events)[j] == SnapshotOf(Run(events[..kj]));
    RunGrows(events, ki, kj);
  }

  /** Three chunks "Hel", "lo wor", "ld" and then the end of the stream. */
  lemma HelloWorld()
    ensures var events := [Event(Some(Chunk("Hel", None)), None),
                           Event(Some(Chunk("lo wor", None)), None),
                           Event(Some(Chunk("ld", None)), None)];
      Snapshots(events) == [
        Snapshot("Hel", [], map[]),
        Snapshot("Hello wor", [], map[]),
        Snapshot("Hello world", [], map[]),
        Snapshot("Hello world", [], map[])]
  {
    var e1 := Event(Some(Chunk("Hel", None)), None);
    var e2 := Event(Some(Chunk("lo wor", None)), None);
    var e3 := Event(Some(Chunk("ld", None)), None);
    var events := [e1, e2, e3];
    assert events[..2] == [e1, e2] && [e1, e2][..1] == [e1] && [e1][..0] == [];
    assert Run([e1]) == State("Hel", [], map[], false, true);
    assert Run([e1, e2]) == State("Hello wor", [], map[], false, true);
    assert Run(events) == State("Hello world", [], map[], false, true);
    assert Emitted([e1]) == [Snapshot("Hel", [], map[])];
    assert Emitted([e1, e2]) == [Snapshot("Hel", [], map[]), Snapshot("Hello wor", [], map[])];
  }
}
