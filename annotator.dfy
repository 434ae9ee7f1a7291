/**
 * The post-processing of a finished answer: citation markers `[k]` and one
 * newline per citation are spliced into the text at offsets computed from each
 * citation's span end, and a footnote block naming the cited files is appended.
 */
module Annotator {
  import opened Types

  // ----- String helpers the splicing is written with -----

  /**
   * Where a Python slice bound `i` falls in a string of length `n`: a negative
   * bound counts from the end, and every bound is clamped to `0..n`.
   */
  function SliceBound(i: int, n: nat): (r: nat)
    ensures r <= n
  {
    if i < 0 then (if n + i < 0 then 0 else n + i)
    else if i > n then n
    else i
  }

  /** `s[:i] + t + s[i:]` in Python. */
  function InsertAt(s: string, i: int, t: string): (r: string)
    ensures |r| == |s| + |t|
  {
    Insert(s, SliceBound(i, |s|), t)
  }

  /** `t` inserted before the `k`-th character of `s`. */
  function Insert(s: string, k: nat, t: string): (r: string)
    requires k <= |s|
    ensures |r| == |s| + |t|
  {
    if k == 0 then t + s else [s[0]] + Insert(s[1..], k - 1, t)
  }

  function Digit(d: nat): char
    requires d < 10
  {
    ('0' as int + d) as char
  }

  function DigitValue(c: char): nat {
    if '0' <= c <= '9' then (c - '0') as nat else 0
  }

  /** `str(n)` for a natural number: its decimal digits, most significant first, no leading zero. */
  function Decimal(n: nat): string {
    if n < 10 then [Digit(n)] else Decimal(n / 10) + [Digit(n % 10)]
  }

  /** The number of decimal digits of `n`. */
  function Width(n: nat): nat {
    if n < 10 then 1 else Width(n / 10) + 1
  }

  /** The number a string of decimal digits denotes. */
  function DecimalValue(s: string): nat {
    if s == [] then 0 else DecimalValue(s[..|s| - 1]) * 10 + DigitValue(s[|s| - 1])
  }

  /** The marker text `[k]`. */
  function Marker(k: nat): string {
    "[" + Decimal(k) + "]"
  }

  /**
   * `uri.split("/")[-1]`: the part after the last slash, the whole URI when it
   * has none, and empty when it ends in a slash.
   */
  function FileName(uri: string): string {
    if uri == [] || uri[|uri| - 1] == '/' then []
    else FileName(uri[..|uri| - 1]) + [uri[|uri| - 1]]
  }

  /** One footnote line, `\n<br>[k] name`. */
  function Footnote(k: nat, ref: Reference): string {
    "\n<br>" + Marker(k) + " " + FileName(ref.uri)
  }

  // ----- The splicing -----

  /**
   * The loop variables: the text being rewritten, the next marker number,
   * the number of characters inserted so far and the footnote block.
   */
  datatype Splice = Splice(body: string, next: nat, shift: nat, notes: string)

  function Start(text: string): Splice {
    Splice(text, 1, 0, "")
  }

  /** One reference: its marker at `endSpan` plus the characters inserted so far, and its footnote. */
  function SpliceRef(p: Splice, endSpan: int, ref: Reference): Splice {
    var marker := Marker(p.next);
    Splice(InsertAt(p.body, endSpan + p.shift, marker), p.next + 1, p.shift + |marker|,
           p.notes + Footnote(p.next, ref))
  }

  /** The references of one citation, in order. */
  function SpliceRefs(st: Splice, endSpan: int, refs: seq<Reference>): Splice {
    if refs == [] then st
    else SpliceRef(SpliceRefs(st, endSpan, refs[..|refs| - 1]), endSpan, refs[|refs| - 1])
  }

  /** One citation: its markers, then one newline at the shifted insertion point. */
  function SpliceCitation(st: Splice, c: Citation): Splice {
    var endSpan := c.spanEnd + 3;
    var p := SpliceRefs(st, endSpan, c.references);
    p.(body := InsertAt(p.body, endSpan + p.shift, "\n"), shift := p.shift + 1)
  }

  /** The citations in input order. */
  function SpliceAll(st: Splice, cs: seq<Citation>): Splice {
    if cs == [] then st else SpliceCitation(SpliceAll(st, cs[..|cs| - 1]), cs[|cs| - 1])
  }

  /** The final message: unchanged without citations, otherwise the spliced body, a newline and the footnotes. */
  function Annotated(text: string, cs: seq<Citation>): string {
    if |cs| == 0 then text
    else
      var st := SpliceAll(Start(text), cs);
      st.body + "\n" + st.notes
  }

  /** The citation post-processing of a finished answer, as the chat panel runs it. */
  method Annotate(text: string, citations: seq<Citation>) returns (out: string)
    ensures out == Annotated(text, citations)
    ensures citations == [] ==> out == text
    ensures citations != [] ==>
      exists body ::
        && out == body + "\n" + Footnotes(AllRefs(citations), 1)
        && |body| == |text| + MarkerChars(1, |AllRefs(citations)|) + |citations|
        && IsSubsequence(text, body)
  {
    out := text;
    if |citations| > 0 {
      var citationNum: nat := 1;
      var numCitationChars: nat := 0;
      var citationLocs := "";
      for i := 0 to |citations|
        invariant Splice(out, citationNum, numCitationChars, citationLocs) == SpliceAll(Start(text), citations[..i])
      {
        assert citations[..i + 1][..i] == citations[..i];
        out, citationNum, numCitationChars, citationLocs :=
          SpliceOne(out, citationNum, numCitationChars, citationLocs, citations[i]);
      }
      assert citations[..|citations|] == citations;
      out := out + "\n" + citationLocs;
      AnnotatedShape(text, citations);
    }
  }

  /** The body of the loop over the citations: one citation's markers, footnotes and newline. */
  method SpliceOne(body: string, next: nat, shift: nat, notes: string, citation: Citation)
    returns (body': string, next': nat, shift': nat, notes': string)
    ensures Splice(body', next', shift', notes') == SpliceCitation(Splice(body, next, shift, notes), citation)
  {
    body', next', shift', notes' := body, next, shift, notes;
    var endSpan := citation.spanEnd + 3;
    var refs := citation.references;
    for j := 0 to |refs|
      invariant Splice(body', next', shift', notes') == SpliceRefs(Splice(body, next, shift, notes), endSpan, refs[..j])
    {
      SpliceRefsPrefix(Splice(body, next, shift, notes), endSpan, refs, j);
      var marker := Marker(next');
      body' := InsertAt(body', endSpan + shift', marker);
      notes' := notes' + Footnote(next', refs[j]);
      next' := next' + 1;
      shift' := shift' + |marker|;
    }
    assert refs[..|refs|] == refs;
    body' := InsertAt(body', endSpan + shift', "\n");
    shift' := shift' + 1;
  }

  lemma SpliceRefsPrefix(st: Splice, endSpan: int, refs: seq<Reference>, j: nat)
    requires j < |refs|
    ensures SpliceRefs(st, endSpan, refs[..j + 1]) == SpliceRef(SpliceRefs(st, endSpan, refs[..j]), endSpan, refs[j])
  {
    assert refs[..j + 1][..j] == refs[..j];
  }

  // ----- Reference definitions -----

  /** Every retrieved reference, citation by citation, in input order. */
  function AllRefs(cs: seq<Citation>): seq<Reference> {
    if cs == [] then [] else cs[0].references + AllRefs(cs[1..])
  }

  /** The footnote lines of `refs`, numbered consecutively from `from`. */
  function Footnotes(refs: seq<Reference>, from: nat): string {
    if refs == [] then "" else Footnote(from, refs[0]) + Footnotes(refs[1..], from + 1)
  }

  /** The total length of the markers `[from]` .. `[from + n - 1]`. */
  function MarkerChars(from: nat, n: nat): nat
    decreases n
  {
    if n == 0 then 0 else Width(from) + 2 + MarkerChars(from + 1, n - 1)
  }

  /** The markers `[from]` .. `[from + n - 1]` written one after another. */
  function Markers(from: nat, n: nat): string {
    if n == 0 then "" else Markers(from, n - 1) + Marker(from + n - 1)
  }

  /** `a` can be read off `b` at the strictly increasing positions `f`. */
  ghost predicate Embeds(a: string, b: string, f: seq<nat>) {
    && |f| == |a|
    && (forall k :: 0 <= k < |f| ==> f[k] < |b| && b[f[k]] == a[k])
    && (forall k, l :: 0 <= k < l < |f| ==> f[k] < f[l])
  }

  /** `a` is an order-preserving subsequence of `b`. */
  ghost predicate IsSubsequence(a: string, b: string) {
    exists f :: Embeds(a, b, f)
  }

  // ----- Lemmas -----

  /**
   * The file name is a suffix of the URI without a slash, preceded by a slash
   * whenever it is shorter than the URI: the segment after the last slash.
   */
  lemma {:induction false} FileNameIsLastSegment(uri: string)
    ensures var r := FileName(uri);
      && |r| <= |uri| && uri == uri[..|uri| - |r|] + r
      && '/' !in r
      && (|r| < |uri| ==> uri[|uri| - |r| - 1] == '/')
  {
    if uri != [] && uri[|uri| - 1] != '/' {
      var init, c := uri[..|uri| - 1], uri[|uri| - 1];
      FileNameIsLastSegment(init);
      var r' := FileName(init);
      var r := r' + [c];
      assert FileName(uri) == r;
      var k := |init| - |r'|;
      assert uri[..|uri| - |r|] == init[..k];
      calc {
        uri;
        init + [c];
        (init[..k] + r') + [c];
        init[..k] + (r' + [c]);
      }
      assert '/' !in r by {
        assert forall i :: 0 <= i < |r| ==> r[i] == if i < |r'| then r'[i] else c;
      }
    }
  }

  /** Whatever precedes the last slash, the file name is what follows it. */
  lemma {:induction false} FileNameAfterSlash(dir: string, name: string)
    requires '/' !in name
    ensures FileName(dir + "/" + name) == name
  {
    if name != [] {
      var init := name[..|name| - 1];
      assert (dir + "/" + name)[..|dir + "/" + name| - 1] == dir + "/" + init;
      FileNameAfterSlash(dir, init);
      assert name == init + [name[|name| - 1]];
    } else {
      assert dir + "/" + name == dir + "/";
    }
  }

  /** `[k]` is two brackets around the digits of `k`. */
  lemma MarkerLength(k: nat)
    ensures |Marker(k)| == Width(k) + 2
  {
    DecimalWidth(k);
  }

  lemma {:induction false} DecimalWidth(n: nat)
    ensures |Decimal(n)| == Width(n)
  {
    if n >= 10 {
      DecimalWidth(n / 10);
    }
  }

  /**
   * The marker number is written as `str` writes it: a non-empty run of
   * decimal digits without a leading zero, which reads back as the number.
   */
  lemma {:induction false} DecimalRoundTrip(n: nat)
    ensures |Decimal(n)| > 0
    ensures forall i :: 0 <= i < |Decimal(n)| ==> '0' <= Decimal(n)[i] <= '9'
    ensures n >= 10 ==> Decimal(n)[0] != '0'
    ensures DecimalValue(Decimal(n)) == n
  {
    if n >= 10 {
      DecimalRoundTrip(n / 10);
      var d := Decimal(n / 10) + [Digit(n % 10)];
      assert d[..|d| - 1] == Decimal(n / 10);
      assert d[0] == Decimal(n / 10)[0];
    }
  }

  lemma ConcatAssoc(x: string, y: string, z: string)
    ensures (x + y) + z == x + (y + z)
  {
  }

  lemma {:induction false} FootnotesAppend(a: seq<Reference>, b: seq<Reference>, from: nat)
    ensures Footnotes(a + b, from) == Footnotes(a, from) + Footnotes(b, from + |a|)
  {
    if a != [] {
      assert (a + b)[1..] == a[1..] + b;
      FootnotesAppend(a[1..], b, from + 1);
      ConcatAssoc(Footnote(from, a[0]), Footnotes(a[1..], from + 1), Footnotes(b, from + |a|));
    } else {
      assert a + b == b;
    }
  }

  lemma {:induction false} MarkerCharsAppend(from: nat, m: nat, n: nat)
    ensures MarkerChars(from, m + n) == MarkerChars(from, m) + MarkerChars(from + m, n)
    decreases m
  {
    if m > 0 {
      MarkerCharsAppend(from + 1, m - 1, n);
    }
  }

  lemma {:induction false} AllRefsSnoc(cs: seq<Citation>, c: Citation)
    ensures AllRefs(cs + [c]) == AllRefs(cs) + c.references
  {
    if cs != [] {
      assert (cs + [c])[1..] == cs[1..] + [c];
      AllRefsSnoc(cs[1..], c);
    }
  }

  /**
   * The references of one citation get the next consecutive marker numbers;
   * the text and the running shift grow by exactly the length of their markers.
   */
  lemma {:induction false} SpliceRefsCounts(st: Splice, endSpan: int, refs: seq<Reference>)
    ensures var r := SpliceRefs(st, endSpan, refs);
      && r.next == st.next + |refs|
      && r.shift == st.shift + MarkerChars(st.next, |refs|)
      && |r.body| == |st.body| + MarkerChars(st.next, |refs|)
  {
    if refs != [] {
      var init := refs[..|refs| - 1];
      SpliceRefsCounts(st, endSpan, init);
      SpliceRefStep(SpliceRefs(st, endSpan, init), endSpan, refs[|refs| - 1]);
      MarkerCharsAppend(st.next, |init|, 1);
    }
  }

  /** What one reference adds: one marker number, its marker's characters and its footnote. */
  lemma SpliceRefStep(p: Splice, endSpan: int, ref: Reference)
    ensures var r := SpliceRef(p, endSpan, ref);
      && r.next == p.next + 1
      && r.shift == p.shift + Width(p.next) + 2
      && |r.body| == |p.body| + Width(p.next) + 2
      && r.notes == p.notes + Footnote(p.next, ref)
  {
    MarkerLength(p.next);
  }

  /** What one citation adds on top of its references: one newline, in the text and in the shift. */
  lemma SpliceCitationStep(st: Splice, c: Citation)
    ensures var p := SpliceRefs(st, c.spanEnd + 3, c.references);
      var r := SpliceCitation(st, c);
      && r.next == p.next
      && r.shift == p.shift + 1
      && |r.body| == |p.body| + 1
      && r.notes == p.notes
  {
  }

  /** The references of one citation append their footnotes, numbered from the next marker number. */
  lemma {:induction false} SpliceRefsNotes(st: Splice, endSpan: int, refs: seq<Reference>)
    ensures SpliceRefs(st, endSpan, refs).notes == st.notes + Footnotes(refs, st.next)
  {
    if refs != [] {
      var init, x := refs[..|refs| - 1], refs[|refs| - 1];
      var p := SpliceRefs(st, endSpan, init);
      var k := st.next + |init|;
      SpliceRefsNotes(st, endSpan, init);
      SpliceRefsCounts(st, endSpan, init);
      SpliceRefStep(p, endSpan, x);
      assert SpliceRefs(st, endSpan, refs) == SpliceRef(p, endSpan, x);
      assert Footnotes(refs, st.next) == Footnotes(init, st.next) + Footnote(k, x) by {
        assert refs == init + [x];
        FootnotesAppend(init, [x], st.next);
        FootnotesOne(x, k);
      }
      ConcatAssoc(st.notes, Footnotes(init, st.next), Footnote(k, x));
    }
  }

  lemma FootnotesOne(x: Reference, k: nat)
    ensures Footnotes([x], k) == Footnote(k, x)
  {
    assert [x][1..] == [];
  }

  /**
   * After any run of citations: the markers are numbered consecutively across
   * citations, the running shift counts every marker character plus one
   * newline per citation (one also for a citation without references), and
   * the text grows by exactly that much.
   */
  lemma {:induction false} SpliceAllCounts(st: Splice, cs: seq<Citation>)
    ensures var r := SpliceAll(st, cs);
      var n := |AllRefs(cs)|;
      && r.next == st.next + n
      && r.shift == st.shift + MarkerChars(st.next, n) + |cs|
      && |r.body| == |st.body| + MarkerChars(st.next, n) + |cs|
  {
    if cs != [] {
      var init, c := cs[..|cs| - 1], cs[|cs| - 1];
      var q := SpliceAll(st, init);
      var n0, k := |AllRefs(init)|, |c.references|;
      assert |AllRefs(cs)| == n0 + k by {
        assert cs == init + [c];
        AllRefsSnoc(init, c);
      }
      var p := SpliceRefs(q, c.spanEnd + 3, c.references);
      SpliceAllCounts(st, init);
      SpliceRefsCounts(q, c.spanEnd + 3, c.references);
      SpliceCitationStep(q, c);
      assert SpliceAll(st, cs) == SpliceCitation(q, c);
      CountsStep(st, q, p, SpliceAll(st, cs), n0, k, |init|);
    } else {
      assert AllRefs(cs) == [];
    }
  }

  /** The arithmetic of one more citation: its reference count and marker characters add on. */
  lemma CountsStep(st: Splice, q: Splice, p: Splice, r: Splice, n0: nat, k: nat, m: nat)
    requires q.next == st.next + n0
    requires q.shift == st.shift + MarkerChars(st.next, n0) + m
    requires |q.body| == |st.body| + MarkerChars(st.next, n0) + m
    requires p.next == q.next + k
    requires p.shift == q.shift + MarkerChars(q.next, k)
    requires |p.body| == |q.body| + MarkerChars(q.next, k)
    requires r.next == p.next && r.shift == p.shift + 1 && |r.body| == |p.body| + 1
    ensures r.next == st.next + (n0 + k)
    ensures r.shift == st.shift + MarkerChars(st.next, n0 + k) + (m + 1)
    ensures |r.body| == |st.body| + MarkerChars(st.next, n0 + k) + (m + 1)
  {
    MarkerCharsAppend(st.next, n0, k);
  }

  /** After any run of citations the footnote block lists every reference, in order, numbered consecutively. */
  lemma {:induction false} SpliceAllNotes(st: Splice, cs: seq<Citation>)
    ensures SpliceAll(st, cs).notes == st.notes + Footnotes(AllRefs(cs), st.next)
  {
    if cs != [] {
      var init, c := cs[..|cs| - 1], cs[|cs| - 1];
      var q := SpliceAll(st, init);
      var a, b := AllRefs(init), c.references;
      assert AllRefs(cs) == a + b by {
        assert cs == init + [c];
        AllRefsSnoc(init, c);
      }
      SpliceCitationStep(q, c);
      SpliceRefsNotes(q, c.spanEnd + 3, b);
      SpliceAllNotes(st, init);
      SpliceAllNext(st, init);
      FootnotesAppend(a, b, st.next);
      ConcatAssoc(st.notes, Footnotes(a, st.next), Footnotes(b, st.next + |a|));
      assert SpliceAll(st, cs) == SpliceCitation(q, c);
    }
  }

  lemma {:induction false} SpliceAllNext(st: Splice, cs: seq<Citation>)
    ensures SpliceAll(st, cs).next == st.next + |AllRefs(cs)|
  {
    SpliceAllCounts(st, cs);
  }

  lemma EmbedsSelf(s: string)
    ensures Embeds(s, s, seq(|s|, k => k))
  {
  }

  /** `Insert` is the slice expression it stands for. */
  lemma {:induction false} InsertSlices(s: string, k: nat, t: string)
    requires k <= |s|
    ensures Insert(s, k, t) == s[..k] + t + s[k..]
  {
    if k > 0 {
      InsertSlices(s[1..], k - 1, t);
      assert s[..k] == [s[0]] + s[1..][..k - 1];
      assert s[k..] == s[1..][k - 1..];
    }
  }

  lemma InsertEmbeds(s: string, i: int, t: string)
    ensures IsSubsequence(s, InsertAt(s, i, t))
  {
    var p := SliceBound(i, |s|);
    InsertSlices(s, p, t);
    var f := seq(|s|, k => if k < p then k else k + |t|);
    assert Embeds(s, InsertAt(s, i, t), f);
  }

  lemma EmbedsTrans(a: string, b: string, c: string)
    requires IsSubsequence(a, b) && IsSubsequence(b, c)
    ensures IsSubsequence(a, c)
  {
    var f :| Embeds(a, b, f);
    var g :| Embeds(b, c, g);
    var h := seq(|f|, k requires 0 <= k < |f| => g[f[k]]);
    assert Embeds(a, c, h);
  }

  lemma {:induction false} SpliceRefsKeeps(st: Splice, endSpan: int, refs: seq<Reference>)
    ensures IsSubsequence(st.body, SpliceRefs(st, endSpan, refs).body)
  {
    if refs == [] {
      EmbedsSelf(st.body);
    } else {
      var p := SpliceRefs(st, endSpan, refs[..|refs| - 1]);
      SpliceRefsKeeps(st, endSpan, refs[..|refs| - 1]);
      InsertEmbeds(p.body, endSpan + p.shift, Marker(p.next));
      EmbedsTrans(st.body, p.body, SpliceRefs(st, endSpan, refs).body);
    }
  }

  /** Annotation only inserts: the original text survives, in order, inside the spliced text. */
  lemma {:induction false} SpliceAllKeeps(st: Splice, cs: seq<Citation>)
    ensures IsSubsequence(st.body, SpliceAll(st, cs).body)
  {
    if cs == [] {
      EmbedsSelf(st.body);
    } else {
      var q := SpliceAll(st, cs[..|cs| - 1]);
      var c := cs[|cs| - 1];
      SpliceAllKeeps(st, cs[..|cs| - 1]);
      var p := SpliceRefs(q, c.spanEnd + 3, c.references);
      SpliceRefsKeeps(q, c.spanEnd + 3, c.references);
      InsertEmbeds(p.body, c.spanEnd + 3 + p.shift, "\n");
      EmbedsTrans(q.body, p.body, SpliceAll(st, cs).body);
      EmbedsTrans(st.body, q.body, SpliceAll(st, cs).body);
    }
  }

  /** The shape of an annotated message with at least one citation. */
  lemma AnnotatedShape(text: string, cs: seq<Citation>)
    requires cs != []
    ensures var body := SpliceAll(Start(text), cs).body;
      && Annotated(text, cs) == body + "\n" + Footnotes(AllRefs(cs), 1)
      && |body| == |text| + MarkerChars(1, |AllRefs(cs)|) + |cs|
      && IsSubsequence(text, body)
  {
    SpliceAllCounts(Start(text), cs);
    SpliceAllNotes(Start(text), cs);
    SpliceAllKeeps(Start(text), cs);
  }

  /**
   * The insertion point of citation `i` is its span end plus 3 plus every
   * character inserted for the citations before it: their markers and one
   * newline each.
   */
  lemma InsertionPoint(text: string, cs: seq<Citation>, i: nat)
    requires i < |cs|
    ensures var st := SpliceAll(Start(text), cs[..i]);
      cs[i].spanEnd + 3 + st.shift == cs[i].spanEnd + 3 + MarkerChars(1, |AllRefs(cs[..i])|) + i
  {
    SpliceAllCounts(Start(text), cs[..i]);
  }

  lemma {:induction false} MarkersLength(from: nat, n: nat)
    ensures |Markers(from, n)| == MarkerChars(from, n)
  {
    if n > 0 {
      MarkersLength(from, n - 1);
      MarkerCharsAppend(from, n - 1, 1);
      MarkerLength(from + n - 1);
    }
  }

  /**
   * From a non-negative insertion point, the markers of one citation land side
   * by side in reference order at that point (clamped to the end of the text),
   * because each later insertion point is shifted past the markers before it.
   */
  lemma {:induction false} SpliceRefsPlacement(st: Splice, endSpan: int, refs: seq<Reference>)
    requires 0 <= endSpan + st.shift
    ensures var at := SliceBound(endSpan + st.shift, |st.body|);
      SpliceRefs(st, endSpan, refs).body == st.body[..at] + Markers(st.next, |refs|) + st.body[at..]
  {
    if refs != [] {
      var init := refs[..|refs| - 1];
      var p := SpliceRefs(st, endSpan, init);
      var at := SliceBound(endSpan + st.shift, |st.body|);
      var ms := Markers(st.next, |init|);
      SpliceRefsPlacement(st, endSpan, init);
      SpliceRefsCounts(st, endSpan, init);
      MarkersLength(st.next, |init|);
      assert endSpan + p.shift == endSpan + st.shift + |ms|;
      InsertAfter(st.body, endSpan + st.shift, ms, Marker(p.next));
      ConcatAssoc(st.body[..at], ms, Marker(p.next));
      assert SpliceRefs(st, endSpan, refs).body == InsertAt(p.body, endSpan + p.shift, Marker(p.next));
    }
  }

  /**
   * From a non-negative insertion point, one citation turns the text into the
   * part before that point, its markers in order, one newline, and the rest.
   */
  lemma CitationPlacement(st: Splice, c: Citation)
    requires 0 <= c.spanEnd + 3 + st.shift
    ensures var at := SliceBound(c.spanEnd + 3 + st.shift, |st.body|);
      SpliceCitation(st, c).body == st.body[..at] + Markers(st.next, |c.references|) + "\n" + st.body[at..]
  {
    RefsThenNewline(st, c.spanEnd + 3, c.references);
    SpliceCitationBody(st, c);
  }

  lemma RefsThenNewline(st: Splice, endSpan: int, refs: seq<Reference>)
    requires 0 <= endSpan + st.shift
    ensures var p := SpliceRefs(st, endSpan, refs);
      var at := SliceBound(endSpan + st.shift, |st.body|);
      InsertAt(p.body, endSpan + p.shift, "\n") == st.body[..at] + Markers(st.next, |refs|) + "\n" + st.body[at..]
  {
    var p := SpliceRefs(st, endSpan, refs);
    var ms := Markers(st.next, |refs|);
    SpliceRefsPlacement(st, endSpan, refs);
    SpliceRefsCounts(st, endSpan, refs);
    MarkersLength(st.next, |refs|);
    NewlineAfter(st.body, endSpan + st.shift, ms, p.body, endSpan + p.shift);
  }

  lemma NewlineAfter(b: string, i: int, ms: string, marked: string, j: int)
    requires 0 <= i && j == i + |ms|
    requires marked == b[..SliceBound(i, |b|)] + ms + b[SliceBound(i, |b|)..]
    ensures var at := SliceBound(i, |b|);
      InsertAt(marked, j, "\n") == b[..at] + ms + "\n" + b[at..]
  {
    InsertAfter(b, i, ms, "\n");
  }

  /**
   * Citation `i` of a message, with a span end of at least -3: its markers, numbered
   * on from every reference before it, and then one newline land side by side at
   * span end + 3 + every earlier marker's characters + `i`.
   */
  lemma CitationLands(text: string, cs: seq<Citation>, i: nat)
    requires i < |cs| && 0 <= cs[i].spanEnd + 3
    ensures var st := SpliceAll(Start(text), cs[..i]);
      var before := |AllRefs(cs[..i])|;
      var at := SliceBound(cs[i].spanEnd + 3 + MarkerChars(1, before) + i, |st.body|);
      SpliceAll(Start(text), cs[..i + 1]).body
        == st.body[..at] + Markers(1 + before, |cs[i].references|) + "\n" + st.body[at..]
  {
    var st := SpliceAll(Start(text), cs[..i]);
    SpliceAllCounts(Start(text), cs[..i]);
    assert cs[..i + 1][..i] == cs[..i] && cs[..i + 1][i] == cs[i];
    SpliceAllLast(Start(text), cs[..i + 1]);
    LandsStep(st, cs[i], |AllRefs(cs[..i])|, i, SpliceAll(Start(text), cs[..i + 1]));
  }

  lemma SpliceAllLast(st: Splice, cs: seq<Citation>)
    requires cs != []
    ensures SpliceAll(st, cs) == SpliceCitation(SpliceAll(st, cs[..|cs| - 1]), cs[|cs| - 1])
  {
  }

  lemma LandsStep(st: Splice, c: Citation, before: nat, i: nat, r: Splice)
    requires st.next == 1 + before && st.shift == MarkerChars(1, before) + i
    requires 0 <= c.spanEnd + 3 && r == SpliceCitation(st, c)
    ensures var at := SliceBound(c.spanEnd + 3 + MarkerChars(1, before) + i, |st.body|);
      r.body == st.body[..at] + Markers(1 + before, |c.references|) + "\n" + st.body[at..]
  {
    CitationPlacement(st, c);
  }

  lemma SpliceCitationBody(st: Splice, c: Citation)
    ensures var p := SpliceRefs(st, c.spanEnd + 3, c.references);
      SpliceCitation(st, c).body == InsertAt(p.body, c.spanEnd + 3 + p.shift, "\n")
  {
  }

  /** A non-negative bound moved by `d` in a string grown by `d` lands `d` further on. */
  lemma ShiftedBound(i: int, n: nat, d: nat)
    requires 0 <= i
    ensures SliceBound(i + d, n + d) == SliceBound(i, n) + d
  {
  }

  /**
   * A negative bound counts from the end of the grown text: moved by `d` in a
   * text grown by `d`, it lands `2 * d` further on, `d` characters past the run
   * just inserted. So while the bound stays negative and not below minus the
   * text's length, the markers of one citation are not side by side.
   */
  lemma NegativeBoundSkips(i: int, n: nat, d: nat)
    requires i + d < 0 && 0 <= n + i
    ensures SliceBound(i + d, n + d) == SliceBound(i, n) + 2 * d
  {
  }

  /**
   * Once a marker lifts a negative bound to zero or more, the next one counts
   * from the start instead: span end -5 puts `[1]` two from the end of "abcdef",
   * `[2]` and the newline near the start, so `[2]` lands before `[1]`.
   */
  lemma NegativeSpanCrosses(text: string, c: Citation)
    requires text == "abcdef" && c == Citation(-5, [Reference("x"), Reference("y")])
    ensures SpliceCitation(Start(text), c).body == "a[2]\nbcd[1]ef"
  {
    CrossRefs(text, c.references);
    SpliceCitationBody(Start(text), c);
    CrossNewline(SpliceRefs(Start(text), -2, c.references).body);
  }

  lemma CrossRefs(text: string, refs: seq<Reference>)
    requires text == "abcdef" && |refs| == 2
    ensures var p := SpliceRefs(Start(text), -2, refs);
      p.body == "a[2]bcd[1]ef" && p.shift == 6
  {
    var st := Start(text);
    SpliceRefsPrefix(st, -2, refs, 0);
    SpliceRefsPrefix(st, -2, refs, 1);
    assert refs[..0] == [] && refs[..2] == refs;
    CrossRefOne(st, refs[0]);
    CrossRefTwo(SpliceRefs(st, -2, refs[..1]), refs[1]);
  }

  lemma CrossRefOne(st: Splice, ref: Reference)
    requires st == Start("abcdef")
    ensures var p := SpliceRef(st, -2, ref);
      p.body == "abcd[1]ef" && p.shift == 3 && p.next == 2
  {
    assert Marker(1) == "[1]";
    CrossFirst(st.body);
  }

  lemma CrossRefTwo(p: Splice, ref: Reference)
    requires p.body == "abcd[1]ef" && p.shift == 3 && p.next == 2
    ensures var r := SpliceRef(p, -2, ref);
      r.body == "a[2]bcd[1]ef" && r.shift == 6
  {
    assert Marker(2) == "[2]";
    CrossSecond(p.body);
  }

  /**
   * A bound below minus the text's length is clamped to the start: span end -13
   * on "ab" puts `[1]` and then `[2]` at index 0, and the newline, still counted
   * from the end, splits `[1]`.
   */
  lemma NegativeSpanClamps(text: string, c: Citation)
    requires text == "ab" && c == Citation(-13, [Reference("x"), Reference("y")])
    ensures SpliceCitation(Start(text), c).body == "[2][\n1]ab"
  {
    ClampRefs(text, c.references);
    SpliceCitationBody(Start(text), c);
    ClampNewline(SpliceRefs(Start(text), -10, c.references).body);
  }

  lemma ClampRefs(text: string, refs: seq<Reference>)
    requires text == "ab" && |refs| == 2
    ensures var p := SpliceRefs(Start(text), -10, refs);
      p.body == "[2][1]ab" && p.shift == 6
  {
    var st := Start(text);
    SpliceRefsPrefix(st, -10, refs, 0);
    SpliceRefsPrefix(st, -10, refs, 1);
    assert refs[..0] == [] && refs[..2] == refs;
    ClampRefOne(st, refs[0]);
    ClampRefTwo(SpliceRefs(st, -10, refs[..1]), refs[1]);
  }

  lemma ClampRefOne(st: Splice, ref: Reference)
    requires st == Start("ab")
    ensures var p := SpliceRef(st, -10, ref);
      p.body == "[1]ab" && p.shift == 3 && p.next == 2
  {
    assert Marker(1) == "[1]";
    InsertSlices(st.body, 0, "[1]");
  }

  lemma ClampRefTwo(p: Splice, ref: Reference)
    requires p.body == "[1]ab" && p.shift == 3 && p.next == 2
    ensures var r := SpliceRef(p, -10, ref);
      r.body == "[2][1]ab" && r.shift == 6
  {
    assert Marker(2) == "[2]";
    InsertSlices(p.body, 0, "[2]");
  }

  lemma ClampNewline(s: string)
    requires s == "[2][1]ab"
    ensures InsertAt(s, -4, "\n") == "[2][\n1]ab"
  {
    InsertSlices(s, 4, "\n");
    assert s[..4] == "[2][" && s[4..] == "1]ab";
  }

  lemma CrossFirst(s: string)
    requires s == "abcdef"
    ensures InsertAt(s, -2, "[1]") == "abcd[1]ef"
  {
    InsertSlices(s, 4, "[1]");
    assert s[..4] == "abcd" && s[4..] == "ef";
  }

  lemma CrossSecond(s: string)
    requires s == "abcd[1]ef"
    ensures InsertAt(s, 1, "[2]") == "a[2]bcd[1]ef"
  {
    InsertSlices(s, 1, "[2]");
    assert s[..1] == "a" && s[1..] == "bcd[1]ef";
  }

  lemma CrossNewline(s: string)
    requires s == "a[2]bcd[1]ef"
    ensures InsertAt(s, 4, "\n") == "a[2]\nbcd[1]ef"
  {
    InsertSlices(s, 4, "\n");
    assert s[..4] == "a[2]" && s[4..] == "bcd[1]ef";
  }

  /** Inserting right after an inserted run extends that run. */
  lemma InsertAfter(b: string, i: int, ms: string, t: string)
    requires 0 <= i
    ensures var at := SliceBound(i, |b|);
      InsertAt(b[..at] + ms + b[at..], i + |ms|, t) == b[..at] + ms + t + b[at..]
  {
    var at := SliceBound(i, |b|);
    var s := b[..at] + ms + b[at..];
    var k := at + |ms|;
    ShiftedBound(i, |b|, |ms|);
    InsertSlices(s, k, t);
    assert s[..k] == b[..at] + ms;
    assert s[k..] == b[at..];
  }

  /** One citation with one reference: the marker and the newline land at span end + 3. */
  lemma SingleCitation(text: string, c: Citation)
    requires text == "The sky is blue today"
    requires c == Citation(11, [Reference("s3://bucket/doc1.pdf")])
    ensures Annotated(text, [c]) == "The sky is blu[1]\ne today" + "\n" + "\n<br>[1] doc1.pdf"
  {
    assert [c][..0] == [];
    assert SpliceCitation(Start(text), c) == Splice("The sky is blu[1]\ne today", 2, 4, "\n<br>[1] doc1.pdf") by {
      ExampleMarker(text, c.references[0]);
      ExampleNewline("The sky is blu[1]e today");
    }
    assert SpliceAll(Start(text), [c]) == SpliceCitation(Start(text), c);
  }

  lemma ExampleNewline(marked: string)
    requires marked == "The sky is blu[1]e today"
    ensures InsertAt(marked, 17, "\n") == "The sky is blu[1]\ne today"
  {
    InsertSlices(marked, 17, "\n");
    assert marked[..17] == "The sky is blu[1]";
    assert marked[17..] == "e today";
  }

  lemma ExampleMarker(text: string, ref: Reference)
    requires text == "The sky is blue today" && ref == Reference("s3://bucket/doc1.pdf")
    ensures SpliceRefs(Start(text), 14, [ref]) == Splice("The sky is blu[1]e today", 2, 3, "\n<br>[1] doc1.pdf")
  {
    SpliceRefsPrefix(Start(text), 14, [ref], 0);
    assert [ref][..0] == [] && [ref][..1] == [ref];
    ExampleFootnote(ref);
    ExampleInsert(text);
  }

  lemma ExampleFootnote(ref: Reference)
    requires ref == Reference("s3://bucket/doc1.pdf")
    ensures Footnote(1, ref) == "\n<br>[1] doc1.pdf"
  {
    assert ref.uri == "s3://bucket" + "/" + "doc1.pdf";
    FileNameAfterSlash("s3://bucket", "doc1.pdf");
    assert Marker(1) == "[1]";
  }

  lemma ExampleInsert(text: string)
    requires text == "The sky is blue today"
    ensures InsertAt(text, 14, Marker(1)) == "The sky is blu[1]e today"
  {
    assert Marker(1) == "[1]";
    InsertSlices(text, 14, "[1]");
    assert text[..14] == "The sky is blu";
    assert text[14..] == "e today";
  }
}
