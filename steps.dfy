/**
 * The trace sidebar: under each display header, every trace category it lists
 * that the last answer produced, with that category's records grouped into
 * steps by trace id, and the steps numbered consecutively across the sidebar.
 */
module Steps {
  import opened Types

  // ----- The two lookup tables -----

  /** A display header and the trace categories shown under it, in order. */
  datatype Header = Header(title: string, names: seq<string>)

  /** The headers in display order. */
  const Headers: seq<Header> := [
    Header("Pre-Processing", ["preGuardrailTrace", "preProcessingTrace"]),
    Header("Orchestration", ["orchestrationTrace"]),
    Header("Post-Processing", ["postProcessingTrace", "postGuardrailTrace"])
  ]

  /**
   * For the categories whose records are keyed by a sub-field: the sub-fields
   * in priority order. The guardrail categories are absent and are keyed by
   * the record's own trace id.
   */
  const SubFields: map<string, seq<string>> := map[
    "preProcessingTrace" := ["modelInvocationInput", "modelInvocationOutput"],
    "orchestrationTrace" := ["invocationInput", "modelInvocationInput", "modelInvocationOutput", "observation", "rationale"],
    "postProcessingTrace" := ["modelInvocationInput", "modelInvocationOutput", "observation"]
  ]

  // ----- Grouping one category -----

  /** What a step shows: a record as it is, or a guardrail record wrapped as `{category: record}`. */
  datatype Entry = Whole(record: Record) | Tagged(traceType: string, record: Record)

  /** The step dictionary: its ids in insertion order and the entries of each id. */
  datatype Groups = Groups(order: seq<string>, steps: map<string, seq<Entry>>)

  /** The ids are distinct and are exactly the keys of the dictionary. */
  ghost predicate WellFormed(g: Groups) {
    && (forall i, j :: 0 <= i < j < |g.order| ==> g.order[i] != g.order[j])
    && (forall id :: id in g.steps <==> id in g.order)
  }

  /** Assignment to a dictionary that keeps insertion order: a new id goes last, a known id keeps its place. */
  function Put(g: Groups, id: string, v: seq<Entry>): (r: Groups)
    requires WellFormed(g)
    ensures WellFormed(r)
  {
    if id in g.steps then Groups(g.order, g.steps[id := v])
    else Groups(g.order + [id], g.steps[id := v])
  }

  /** The position of the first of `fields` that the record carries, if any. */
  function FirstListed(fields: seq<string>, rec: Record): (r: Option<nat>)
    ensures r.Some? ==> r.value < |fields| && fields[r.value] in rec.parts
    ensures r.Some? ==> forall j :: 0 <= j < r.value ==> fields[j] !in rec.parts
    ensures r.None? ==> forall j :: 0 <= j < |fields| ==> fields[j] !in rec.parts
  {
    if fields == [] then None
    else if fields[0] in rec.parts then Some(0)
    else match FirstListed(fields[1..], rec)
      case None => None
      case Some(j) => Some(j + 1)
  }

  /** How a record is filed: under an id, nowhere (no listed sub-field), or not at all because the id is missing. */
  datatype Key = Keyed(id: string) | Unlisted | MissingId

  function IdKey(id: Option<string>): Key {
    match id
    case None => MissingId
    case Some(x) => Keyed(x)
  }

  /** The key of a record of category `tt`. */
  function KeyOf(tt: string, rec: Record): Key {
    if tt in SubFields then
      match FirstListed(SubFields[tt], rec)
      case None => Unlisted
      case Some(j) => IdKey(rec.parts[SubFields[tt][j]])
    else IdKey(rec.traceId)
  }

  /**
   * One record: appended to its id's step in a sub-field category, made the
   * whole of its id's step in a guardrail category; `None` when its id is missing.
   */
  function Group(tt: string, g: Groups, rec: Record): Option<Groups>
    requires WellFormed(g)
  {
    match KeyOf(tt, rec)
    case MissingId => None
    case Unlisted => Some(g)
    case Keyed(id) =>
      if tt in SubFields then Some(Put(g, id, (if id in g.steps then g.steps[id] else []) + [Whole(rec)]))
      else Some(Put(g, id, [Tagged(tt, rec)]))
  }

  /** The records of one category, in order, starting from an empty dictionary. */
  function GroupAll(tt: string, recs: seq<Record>): (r: Option<Groups>)
    ensures r.Some? ==> WellFormed(r.value)
  {
    if recs == [] then Some(Groups([], map[]))
    else match GroupAll(tt, recs[..|recs| - 1])
      case None => None
      case Some(g) => Group(tt, g, recs[|recs| - 1])
  }

  /** The grouping of one category, as the sidebar runs it. */
  method GroupCategory(traceType: string, records: seq<Record>) returns (groups: Option<Groups>)
    ensures groups == GroupAll(traceType, records)
  {
    var order: seq<string> := [];
    var steps: map<string, seq<Entry>> := map[];
    for i := 0 to |records|
      invariant GroupAll(traceType, records[..i]) == Some(Groups(order, steps))
    {
      assert records[..i + 1][..i] == records[..i];
      var rec := records[i];
      ghost var g := Groups(order, steps);
      assert GroupAll(traceType, records[..i + 1]) == Group(traceType, g, rec);
      if traceType in SubFields {
        var fields := SubFields[traceType];
        var j := 0;
        while j < |fields| && fields[j] !in rec.parts
          invariant j <= |fields|
          invariant forall k :: 0 <= k < j ==> fields[k] !in rec.parts
        {
          j := j + 1;
        }
        assert FirstListed(fields, rec) == if j < |fields| then Some(j) else None;
        if j < |fields| {
          var id := rec.parts[fields[j]];
          if id.None? {
            GroupAllFails(traceType, records, i + 1);
            return None;
          }
          assert KeyOf(traceType, rec) == Keyed(id.value);
          if id.value !in steps {
            assert [] + [Whole(rec)] == [Whole(rec)];
            order := order + [id.value];
            steps := steps[id.value := [Whole(rec)]];
          } else {
            steps := steps[id.value := steps[id.value] + [Whole(rec)]];
          }
        }
      } else {
        if rec.traceId.None? {
          GroupAllFails(traceType, records, i + 1);
          return None;
        }
        var id := rec.traceId.value;
        if id !in steps {
          order := order + [id];
        }
        steps := steps[id := [Tagged(traceType, rec)]];
      }
    }
    assert records[..|records|] == records;
    groups := Some(Groups(order, steps));
  }

  // ----- The sidebar -----

  /** One line of the sidebar: a header, a numbered step with its entries, or "None". */
  datatype Line = Heading(title: string) | TraceStep(number: nat, entries: seq<Entry>) | NoTrace

  /** The sidebar so far, the next step number, and whether a missing trace id has aborted it. */
  datatype Render = Render(lines: seq<Line>, next: nat, failed: bool)

  /** The first `n` steps of a dictionary, numbered from `first`. */
  function StepLines(g: Groups, n: nat, first: nat): seq<Line>
    requires WellFormed(g) && n <= |g.order|
  {
    if n == 0 then []
    else StepLines(g, n - 1, first) + [TraceStep(first + n - 1, g.steps[g.order[n - 1]])]
  }

  /** One category: nothing when absent, its steps when present, an abort when a trace id is missing. */
  function RenderName(r: Render, trace: map<string, seq<Record>>, tt: string): Render {
    if r.failed || tt !in trace then r
    else match GroupAll(tt, trace[tt])
      case None => r.(failed := true)
      case Some(g) => Render(r.lines + StepLines(g, |g.order|, r.next), r.next + |g.order|, false)
  }

  function RenderNames(r: Render, trace: map<string, seq<Record>>, names: seq<string>): Render {
    if names == [] then r
    else RenderName(RenderNames(r, trace, names[..|names| - 1]), trace, names[|names| - 1])
  }

  /** Whether any of `names` is a category of the trace. */
  function AnyPresent(names: seq<string>, trace: map<string, seq<Record>>): bool {
    names != [] && (AnyPresent(names[..|names| - 1], trace) || names[|names| - 1] in trace)
  }

  /** One header: its title, its categories, and "None" when it has no category at all. */
  function RenderHeader(r: Render, trace: map<string, seq<Record>>, h: Header): Render {
    if r.failed then r
    else
      var r' := RenderNames(r.(lines := r.lines + [Heading(h.title)]), trace, h.names);
      if !r'.failed && !AnyPresent(h.names, trace) then r'.(lines := r'.lines + [NoTrace]) else r'
  }

  function RenderHeaders(r: Render, trace: map<string, seq<Record>>, hs: seq<Header>): Render {
    if hs == [] then r
    else RenderHeader(RenderHeaders(r, trace, hs[..|hs| - 1]), trace, hs[|hs| - 1])
  }

  /** The whole sidebar for the trace map of the last answer, steps numbered from 1. */
  function Sidebar(trace: map<string, seq<Record>>): Render {
    RenderHeaders(Render([], 1, false), trace, Headers)
  }

  /** The trace section of the sidebar, as the page renders it; `ok` is false when a missing id aborts it. */
  method RenderSidebar(trace: map<string, seq<Record>>) returns (lines: seq<Line>, ok: bool)
    ensures lines == Sidebar(trace).lines
    ensures ok == !Sidebar(trace).failed
  {
    lines := [];
    var stepNum: nat := 1;
    for h := 0 to |Headers|
      invariant RenderHeaders(Render([], 1, false), trace, Headers[..h]) == Render(lines, stepNum, false)
    {
      assert Headers[..h + 1][..h] == Headers[..h];
      var failed;
      lines, stepNum, failed := ShowHeader(lines, stepNum, trace, Headers[h]);
      if failed {
        HeadersFailFrom(Render([], 1, false), trace, Headers, h + 1);
        assert Headers[..|Headers|] == Headers;
        return lines, false;
      }
    }
    assert Headers[..|Headers|] == Headers;
    ok := true;
  }

  /** One header of the sidebar: its title, its categories' steps, or "None". */
  method ShowHeader(lines: seq<Line>, stepNum: nat, trace: map<string, seq<Record>>, header: Header)
    returns (lines': seq<Line>, stepNum': nat, failed: bool)
    ensures Render(lines', stepNum', failed) == RenderHeader(Render(lines, stepNum, false), trace, header)
  {
    lines' := lines + [Heading(header.title)];
    stepNum' := stepNum;
    ghost var headed := Render(lines', stepNum', false);
    var hasTrace := false;
    for n := 0 to |header.names|
      invariant RenderNames(headed, trace, header.names[..n]) == Render(lines', stepNum', false)
      invariant hasTrace == AnyPresent(header.names[..n], trace)
    {
      assert header.names[..n + 1][..n] == header.names[..n];
      var traceType := header.names[n];
      if traceType in trace {
        hasTrace := true;
        var groups := GroupCategory(traceType, trace[traceType]);
        if groups.None? {
          NamesFailFrom(headed, trace, header.names, n + 1);
          assert header.names[..|header.names|] == header.names;
          return lines', stepNum', true;
        }
        lines', stepNum' := ShowSteps(lines', stepNum', groups.value);
      }
    }
    assert header.names[..|header.names|] == header.names;
    if !hasTrace {
      lines' := lines' + [NoTrace];
    }
    failed := false;
  }

  /** The steps of one category's dictionary, in insertion order, numbered on from `stepNum`. */
  method ShowSteps(lines: seq<Line>, stepNum: nat, g: Groups) returns (lines': seq<Line>, stepNum': nat)
    requires WellFormed(g)
    ensures lines' == lines + StepLines(g, |g.order|, stepNum)
    ensures stepNum' == stepNum + |g.order|
  {
    lines', stepNum' := lines, stepNum;
    for k := 0 to |g.order|
      invariant lines' == lines + StepLines(g, k, stepNum)
      invariant stepNum' == stepNum + k
    {
      lines' := lines' + [TraceStep(stepNum', g.steps[g.order[k]])];
      stepNum' := stepNum' + 1;
    }
  }

  // ----- Reference definitions -----

  /** The ids of the records that are filed, in arrival order, repeats included. */
  function Ids(tt: string, recs: seq<Record>): seq<string> {
    if recs == [] then []
    else
      var k := KeyOf(tt, recs[|recs| - 1]);
      Ids(tt, recs[..|recs| - 1]) + (if k.Keyed? then [k.id] else [])
  }

  /** The records filed under `id`, in arrival order. */
  function Matching(tt: string, recs: seq<Record>, id: string): seq<Record> {
    if recs == [] then []
    else
      var last := recs[|recs| - 1];
      Matching(tt, recs[..|recs| - 1], id) + (if KeyOf(tt, last) == Keyed(id) then [last] else [])
  }

  function Wholes(recs: seq<Record>): seq<Entry> {
    if recs == [] then [] else Wholes(recs[..|recs| - 1]) + [Whole(recs[|recs| - 1])]
  }

  /** The position of the first occurrence of `x` in `s`. */
  function FirstIndex(s: seq<string>, x: string): (r: nat)
    requires x in s
    ensures r < |s| && s[r] == x
    ensures forall k :: 0 <= k < r ==> s[k] != x
  {
    if s[0] == x then 0 else 1 + FirstIndex(s[1..], x)
  }

  /** The step numbers shown, in display order. */
  function Numbers(lines: seq<Line>): seq<nat> {
    if lines == [] then []
    else
      var last := lines[|lines| - 1];
      Numbers(lines[..|lines| - 1]) + (if last.TraceStep? then [last.number] else [])
  }

  ghost predicate CountsFrom(ns: seq<nat>, first: nat) {
    forall k :: 0 <= k < |ns| ==> ns[k] == first + k
  }

  /** The steps shown so far are numbered 1, 2, ... and the next number follows the last. */
  ghost predicate Numbered(r: Render) {
    CountsFrom(Numbers(r.lines), 1) && |Numbers(r.lines)| + 1 == r.next
  }

  ghost predicate OnlySteps(lines: seq<Line>) {
    forall i :: 0 <= i < |lines| ==> lines[i].TraceStep?
  }

  // ----- Lemmas: grouping -----

  lemma {:induction false} GroupAllFails(tt: string, recs: seq<Record>, i: nat)
    requires i <= |recs| && GroupAll(tt, recs[..i]) == None
    ensures GroupAll(tt, recs) == None
    decreases |recs| - i
  {
    if i < |recs| {
      assert recs[..i + 1][..i] == recs[..i];
      GroupAllFails(tt, recs, i + 1);
    } else {
      assert recs[..i] == recs;
    }
  }

  /** Grouping aborts exactly when some record's id is missing where its key is looked up. */
  lemma {:induction false} GroupFailsIff(tt: string, recs: seq<Record>)
    ensures GroupAll(tt, recs) == None <==> exists i :: 0 <= i < |recs| && KeyOf(tt, recs[i]) == MissingId
  {
    if recs != [] {
      var init, last := recs[..|recs| - 1], recs[|recs| - 1];
      GroupFailsIff(tt, init);
      GroupAllSnocFails(tt, recs);
      assert recs == init + [last];
      MissingSnoc(tt, init, last);
    }
  }

  /** A missing id among `init + [last]` is one in `init` or the last one's. */
  lemma MissingSnoc(tt: string, init: seq<Record>, last: Record)
    ensures (exists i :: 0 <= i < |init + [last]| && KeyOf(tt, (init + [last])[i]) == MissingId)
      <==> ((exists i :: 0 <= i < |init| && KeyOf(tt, init[i]) == MissingId) || KeyOf(tt, last) == MissingId)
  {
    assert forall i :: 0 <= i < |init| ==> (init + [last])[i] == init[i];
    assert (init + [last])[|init|] == last;
  }

  /** The last record aborts the grouping exactly when its id is missing. */
  lemma GroupAllSnocFails(tt: string, recs: seq<Record>)
    requires recs != []
    ensures GroupAll(tt, recs) == None
      <==> GroupAll(tt, recs[..|recs| - 1]) == None || KeyOf(tt, recs[|recs| - 1]) == MissingId
  {
  }

  /** `order` lists each id of `ids` once, in the order of first occurrence. */
  ghost predicate FirstSeen(order: seq<string>, ids: seq<string>) {
    && (forall id :: id in order <==> id in ids)
    && (forall i, j :: 0 <= i < j < |order| ==> order[i] != order[j])
    && (forall i, j :: 0 <= i < j < |order| ==> FirstIndex(ids, order[i]) < FirstIndex(ids, order[j]))
  }

  lemma FirstSeenSnoc(order: seq<string>, ids: seq<string>, id: string)
    requires FirstSeen(order, ids)
    ensures FirstSeen(if id in order then order else order + [id], ids + [id])
  {
    forall x | x in ids
      ensures FirstIndex(ids + [id], x) == FirstIndex(ids, x)
    {
      FirstIndexSnoc(ids, id, x);
    }
    if id in order {
      FirstSeenKnown(order, ids, id);
    } else {
      FirstSeenNew(order, ids, id);
    }
  }

  lemma FirstSeenKnown(order: seq<string>, ids: seq<string>, id: string)
    requires FirstSeen(order, ids) && id in order
    requires forall x :: x in ids ==> FirstIndex(ids + [id], x) == FirstIndex(ids, x)
    ensures FirstSeen(order, ids + [id])
  {
  }

  lemma FirstSeenNew(order: seq<string>, ids: seq<string>, id: string)
    requires FirstSeen(order, ids) && id !in order
    requires forall x :: x in ids ==> FirstIndex(ids + [id], x) == FirstIndex(ids, x)
    ensures FirstSeen(order + [id], ids + [id])
  {
    var o, ids' := order + [id], ids + [id];
    assert FirstIndex(ids', id) == |ids|;
    forall i, j | 0 <= i < j < |o|
      ensures o[i] != o[j] && FirstIndex(ids', o[i]) < FirstIndex(ids', o[j])
    {
      assert o[i] == order[i];
      if j < |order| {
        assert o[j] == order[j];
      }
    }
  }

  /**
   * The steps appear in the order their ids are first seen, once each, and
   * exactly the ids of filed records appear.
   */
  lemma {:induction false} GroupOrder(tt: string, recs: seq<Record>)
    requires GroupAll(tt, recs).Some?
    ensures FirstSeen(GroupAll(tt, recs).value.order, Ids(tt, recs))
  {
    if recs != [] {
      var init, last := recs[..|recs| - 1], recs[|recs| - 1];
      GroupOrder(tt, init);
      var g0 := GroupAll(tt, init).value;
      var g := GroupAll(tt, recs).value;
      match KeyOf(tt, last)
      case Unlisted =>
        assert g == g0 && Ids(tt, recs) == Ids(tt, init);
      case Keyed(id) =>
        assert Ids(tt, recs) == Ids(tt, init) + [id];
        assert g.order == if id in g0.order then g0.order else g0.order + [id];
        FirstSeenSnoc(g0.order, Ids(tt, init), id);
    }
  }

  lemma {:induction false} FirstIndexSnoc(s: seq<string>, y: string, x: string)
    requires x in s
    ensures FirstIndex(s + [y], x) == FirstIndex(s, x)
  {
    if s[0] != x {
      assert (s + [y])[1..] == s[1..] + [y];
      FirstIndexSnoc(s[1..], y, x);
    }
  }

  /** What the step of `id` holds, given the records filed under it. */
  ghost predicate StepOf(tt: string, entries: seq<Entry>, m: seq<Record>) {
    if tt in SubFields then entries == Wholes(m)
    else m != [] && entries == [Tagged(tt, m[|m| - 1])]
  }

  /**
   * The contents of each step: in a sub-field category every record filed
   * under its id, in arrival order; in a guardrail category only the last
   * such record, wrapped with its category name. Records without a listed
   * sub-field are in no step.
   */
  lemma GroupContents(tt: string, recs: seq<Record>)
    requires GroupAll(tt, recs).Some?
    ensures var g := GroupAll(tt, recs).value;
      forall id :: id in g.steps ==> StepOf(tt, g.steps[id], Matching(tt, recs, id))
  {
    var g := GroupAll(tt, recs).value;
    forall id | id in g.steps
      ensures StepOf(tt, g.steps[id], Matching(tt, recs, id))
    {
      GroupContentsAt(tt, recs, id);
    }
  }

  lemma {:induction false} GroupContentsAt(tt: string, recs: seq<Record>, id: string)
    requires GroupAll(tt, recs).Some? && id in GroupAll(tt, recs).value.steps
    ensures StepOf(tt, GroupAll(tt, recs).value.steps[id], Matching(tt, recs, id))
  {
    var init, last := recs[..|recs| - 1], recs[|recs| - 1];
    var g0 := GroupAll(tt, init).value;
    var g := GroupAll(tt, recs).value;
    var m0, m := Matching(tt, init, id), Matching(tt, recs, id);
    if KeyOf(tt, last) == Keyed(id) {
      assert m == m0 + [last];
      if tt in SubFields {
        if id in g0.steps {
          GroupContentsAt(tt, init, id);
          assert m[..|m| - 1] == m0;
        } else {
          MatchingEmpty(tt, init, id);
          assert m == [last] && m[..0] == [];
        }
      }
    } else {
      assert m == m0;
      assert g.steps[id] == g0.steps[id];
      GroupContentsAt(tt, init, id);
    }
  }

  /** No record is filed under an id the dictionary lacks. */
  lemma {:induction false} MatchingEmpty(tt: string, recs: seq<Record>, id: string)
    requires GroupAll(tt, recs).Some? && id !in GroupAll(tt, recs).value.steps
    ensures Matching(tt, recs, id) == []
  {
    if recs != [] {
      var init, last := recs[..|recs| - 1], recs[|recs| - 1];
      MatchingEmpty(tt, init, id);
    }
  }

  // ----- Lemmas: the sidebar -----

  lemma {:induction false} NamesStayFailed(r: Render, trace: map<string, seq<Record>>, names: seq<string>)
    requires r.failed
    ensures RenderNames(r, trace, names) == r
  {
    if names != [] {
      NamesStayFailed(r, trace, names[..|names| - 1]);
    }
  }

  /** Once a category aborts, the categories after it under the same header show nothing. */
  lemma {:induction false} NamesFailFrom(r: Render, trace: map<string, seq<Record>>, names: seq<string>, n: nat)
    requires n <= |names| && RenderNames(r, trace, names[..n]).failed
    ensures RenderNames(r, trace, names) == RenderNames(r, trace, names[..n])
    decreases |names| - n
  {
    if n < |names| {
      assert names[..n + 1][..n] == names[..n];
      NamesFailFrom(r, trace, names, n + 1);
    } else {
      assert names[..n] == names;
    }
  }

  lemma {:induction false} HeadersStayFailed(r: Render, trace: map<string, seq<Record>>, hs: seq<Header>)
    requires r.failed
    ensures RenderHeaders(r, trace, hs) == r
  {
    if hs != [] {
      HeadersStayFailed(r, trace, hs[..|hs| - 1]);
    }
  }

  /** Once a header aborts, no later header shows anything, not even its title. */
  lemma {:induction false} HeadersFailFrom(r: Render, trace: map<string, seq<Record>>, hs: seq<Header>, h: nat)
    requires h <= |hs| && RenderHeaders(r, trace, hs[..h]).failed
    ensures RenderHeaders(r, trace, hs) == RenderHeaders(r, trace, hs[..h])
    decreases |hs| - h
  {
    if h < |hs| {
      assert hs[..h + 1][..h] == hs[..h];
      HeadersFailFrom(r, trace, hs, h + 1);
    } else {
      assert hs[..h] == hs;
    }
  }

  /** `AnyPresent` is "some listed category is in the trace". */
  lemma {:induction false} AnyPresentIff(names: seq<string>, trace: map<string, seq<Record>>)
    ensures AnyPresent(names, trace) <==> exists i :: 0 <= i < |names| && names[i] in trace
  {
    if names != [] {
      var init := names[..|names| - 1];
      AnyPresentIff(init, trace);
      if AnyPresent(init, trace) {
        var i :| 0 <= i < |init| && init[i] in trace;
        assert names[i] == init[i];
      }
      assert forall i :: 0 <= i < |init| ==> names[i] == init[i];
    }
  }

  lemma {:induction false} NumbersAppend(a: seq<Line>, b: seq<Line>)
    ensures Numbers(a + b) == Numbers(a) + Numbers(b)
  {
    if b != [] {
      assert (a + b)[..|a + b| - 1] == a + b[..|b| - 1];
      NumbersAppend(a, b[..|b| - 1]);
    } else {
      assert a + b == a;
    }
  }

  lemma StepLinesNumbers(g: Groups, n: nat, first: nat)
    requires WellFormed(g) && n <= |g.order|
    ensures |Numbers(StepLines(g, n, first))| == n && CountsFrom(Numbers(StepLines(g, n, first)), first)
    ensures OnlySteps(StepLines(g, n, first))
  {
    StepLinesConsecutive(g, n, first);
    NumbersConsecutive(StepLines(g, n, first), first);
  }

  /** Every line is a step, and the `i`-th one carries number `first + i`. */
  ghost predicate Consecutive(lines: seq<Line>, first: nat) {
    forall i :: 0 <= i < |lines| ==> lines[i].TraceStep? && lines[i].number == first + i
  }

  lemma {:induction false} StepLinesConsecutive(g: Groups, n: nat, first: nat)
    requires WellFormed(g) && n <= |g.order|
    ensures |StepLines(g, n, first)| == n && Consecutive(StepLines(g, n, first), first)
    ensures forall i :: 0 <= i < n ==> StepLines(g, n, first)[i] == TraceStep(first + i, g.steps[g.order[i]])
  {
    if n > 0 {
      StepLinesConsecutive(g, n - 1, first);
    }
  }

  lemma {:induction false} NumbersConsecutive(lines: seq<Line>, first: nat)
    requires Consecutive(lines, first)
    ensures |Numbers(lines)| == |lines| && CountsFrom(Numbers(lines), first)
  {
    if lines != [] {
      var init := lines[..|lines| - 1];
      assert Consecutive(init, first);
      NumbersConsecutive(init, first);
    }
  }

  /** One category keeps the numbering consecutive and adds nothing but steps. */
  lemma RenderNameNumbered(r: Render, trace: map<string, seq<Record>>, tt: string)
    requires Numbered(r)
    ensures var r' := RenderName(r, trace, tt);
      && Numbered(r')
      && |r.lines| <= |r'.lines| && r'.lines[..|r.lines|] == r.lines
      && OnlySteps(r'.lines[|r.lines|..])
  {
    var r' := RenderName(r, trace, tt);
    if !r.failed && tt in trace && GroupAll(tt, trace[tt]).Some? {
      var g := GroupAll(tt, trace[tt]).value;
      var added := StepLines(g, |g.order|, r.next);
      StepLinesNumbers(g, |g.order|, r.next);
      NumbersAppend(r.lines, added);
      assert r'.lines[|r.lines|..] == added;
    }
  }

  lemma {:induction false} RenderNamesNumbered(r: Render, trace: map<string, seq<Record>>, names: seq<string>)
    requires Numbered(r)
    ensures var r' := RenderNames(r, trace, names);
      && Numbered(r')
      && |r.lines| <= |r'.lines| && r'.lines[..|r.lines|] == r.lines
      && OnlySteps(r'.lines[|r.lines|..])
  {
    if names != [] {
      var p := RenderNames(r, trace, names[..|names| - 1]);
      RenderNamesNumbered(r, trace, names[..|names| - 1]);
      RenderNameNumbered(p, trace, names[|names| - 1]);
      var r' := RenderNames(r, trace, names);
      assert r'.lines[..|r.lines|] == p.lines[..|p.lines|][..|r.lines|];
      assert forall i :: |r.lines| <= i < |r'.lines| ==>
        r'.lines[i] == if i < |p.lines| then p.lines[|r.lines|..][i - |r.lines|] else r'.lines[|p.lines|..][i - |p.lines|];
    }
  }

  /** Categories that are all absent leave the sidebar as it was. */
  lemma {:induction false} NamesAbsent(r: Render, trace: map<string, seq<Record>>, names: seq<string>)
    requires !AnyPresent(names, trace)
    ensures RenderNames(r, trace, names) == r
  {
    if names != [] {
      NamesAbsent(r, trace, names[..|names| - 1]);
    }
  }

  /** Headings and "None" lines carry no number, so a header keeps the numbering consecutive. */
  lemma RenderHeaderNumbered(r: Render, trace: map<string, seq<Record>>, h: Header)
    requires Numbered(r)
    ensures Numbered(RenderHeader(r, trace, h))
  {
    if !r.failed {
      var headed := r.(lines := r.lines + [Heading(h.title)]);
      NumbersAppend(r.lines, [Heading(h.title)]);
      assert Numbers([Heading(h.title)]) == [] by {
        assert [Heading(h.title)][..0] == [];
      }
      RenderNamesNumbered(headed, trace, h.names);
      var r' := RenderNames(headed, trace, h.names);
      NumbersAppend(r'.lines, [NoTrace]);
      assert Numbers([NoTrace]) == [] by {
        assert [NoTrace][..0] == [];
      }
    }
  }

  lemma {:induction false} RenderHeadersNumbered(r: Render, trace: map<string, seq<Record>>, hs: seq<Header>)
    requires Numbered(r)
    ensures Numbered(RenderHeaders(r, trace, hs))
  {
    if hs != [] {
      RenderHeadersNumbered(r, trace, hs[..|hs| - 1]);
      RenderHeaderNumbered(RenderHeaders(r, trace, hs[..|hs| - 1]), trace, hs[|hs| - 1]);
    }
  }

  /**
   * The steps of the sidebar are numbered 1, 2, ... without gap or repeat,
   * across headers and categories, and the count of steps is one less than
   * the next number.
   */
  lemma SidebarNumbered(trace: map<string, seq<Record>>)
    ensures Numbered(Sidebar(trace))
  {
    assert Numbers([]) == [];
    RenderHeadersNumbered(Render([], 1, false), trace, Headers);
  }

  /**
   * A header whose categories are all absent shows its title and "None" and
   * uses no step number; a header with a category present shows its title
   * followed by steps only.
   */
  lemma HeaderNone(r: Render, trace: map<string, seq<Record>>, h: Header)
    requires Numbered(r) && !r.failed
    ensures var r' := RenderHeader(r, trace, h);
      && |r.lines| < |r'.lines| && r'.lines[..|r.lines| + 1] == r.lines + [Heading(h.title)]
      && ((forall i :: 0 <= i < |h.names| ==> h.names[i] !in trace) ==>
            r' == Render(r.lines + [Heading(h.title), NoTrace], r.next, false))
      && ((exists i :: 0 <= i < |h.names| && h.names[i] in trace) ==>
            OnlySteps(r'.lines[|r.lines| + 1..]))
  {
    var headed := r.(lines := r.lines + [Heading(h.title)]);
    AnyPresentIff(h.names, trace);
    assert Numbered(headed) by {
      NumbersAppend(r.lines, [Heading(h.title)]);
      assert Numbers([Heading(h.title)]) == [] by {
        assert [Heading(h.title)][..0] == [];
      }
    }
    RenderNamesNumbered(headed, trace, h.names);
    var r' := RenderNames(headed, trace, h.names);
    if !AnyPresent(h.names, trace) {
      NamesAbsent(headed, trace, h.names);
    } else {
      assert RenderHeader(r, trace, h) == r';
      assert r'.lines[..|r.lines| + 1] == r'.lines[..|headed.lines|];
    }
  }
}
