/**
 * The aggregator that walks clippy's diagnostic tree and files every
 * missing-documentation diagnostic under the source file it points at
 * (`MissingDocs` in src/visit.rs).
 *
 * The tree is given as plain values: a message carries an optional
 * diagnostic code, its text and its spans; a span names a file, a
 * position and the highlighted source lines under it.
 */
module Visit {
  import opened Wrappers
  import opened Utf8

  /** One highlighted source line: its text and the 1-based columns it highlights. */
  datatype Text = Text(data: Bytes, start: nat, end: nat)

  /** A span of a diagnostic: the file it is in, where it starts, the lines under it. */
  datatype Span = Span(name: Bytes, row: nat, col: nat, texts: seq<Text>)

  /** A diagnostic message: its code (when it has one), its text and its spans. */
  datatype Message = Message(code: Option<string>, message: Bytes, spans: seq<Span>)

  /** A value together with the row and column it was reported at. */
  datatype Spanned<T> = Spanned(item: T, row: nat, col: nat)

  /** One reported diagnostic: its text at its position, and the lines it highlights. */
  datatype Missing = Missing(message: Spanned<Bytes>, text: seq<Text>)

  /** The per-file report: every file's diagnostics in the order they were filed. */
  type Report = map<Bytes, seq<Missing>>

  /** The diagnostic codes the report is made of. */
  const DOC_CODES: set<string> := {
    "missing_docs",
    "clippy::empty_docs",
    "clippy::suspicious_doc_comments",
    "clippy::missing-errors-doc",
    "clippy::missing-panics-doc",
    "clippy::missing-safety-doc",
    "clippy::unnecessary_safety_doc",
    "clippy::undocumented_unsafe_blocks"
  }

  /** `MissingDocs::filter_message`: is this a documentation diagnostic? */
  function FilterMessage(msg: Message): (accepted: bool)
    ensures accepted <==> msg.code.Some? && msg.code.value in DOC_CODES
  {
    match msg.code
    case None => false
    case Some(code) =>
      match code
      case "missing_docs" => true
      case "clippy::empty_docs" => true
      case "clippy::suspicious_doc_comments" => true
      case "clippy::missing-errors-doc" => true
      case "clippy::missing-panics-doc" => true
      case "clippy::missing-safety-doc" => true
      case "clippy::unnecessary_safety_doc" => true
      case "clippy::undocumented_unsafe_blocks" => true
      case _ => false
  }

  /** The path filter of `visit_span`: an empty set lets every file through. */
  predicate Admits(allow: set<Bytes>, name: Bytes) {
    allow == {} || name in allow
  }

  /** The diagnostics filed so far under `path`. */
  function Entries(report: Report, path: Bytes): seq<Missing> {
    if path in report then report[path] else []
  }

  /** `map.entry(path).or_default().push(x)`. */
  function Append(report: Report, path: Bytes, x: Missing): (r: Report)
    ensures Entries(r, path) == Entries(report, path) + [x]
    ensures r.Keys == report.Keys + {path}
    ensures forall p :: p != path ==> Entries(r, p) == Entries(report, p)
  {
    report[path := Entries(report, path) + [x]]
  }

  // ---------------------------------------------------------------------
  // The effect of visiting a span and a message, on the aggregator's state
  // ---------------------------------------------------------------------

  /** What `MissingDocs` holds between two visits. */
  datatype Docs = Docs(report: Report, last: Option<Bytes>)

  /** The entry a span files: the pending message text at the span's position. */
  function EntryFor(item: Bytes, span: Span): Missing {
    Missing(Spanned(item, span.row, span.col), span.texts)
  }

  /**
   * `visit_span`: a span of a file the filter refuses only drops the
   * pending message; any other span files the pending message under its
   * file, or fails with "valid tree" when there is none (`None`).
   */
  function SpanVisited(allow: set<Bytes>, d: Docs, span: Span): (r: Option<Docs>)
    ensures r.None? <==> Admits(allow, span.name) && d.last.None?
    ensures r.Some? ==> r.value.last.None?
    ensures r.Some? && !Admits(allow, span.name) ==> r.value.report == d.report
    ensures r.Some? && Admits(allow, span.name) ==>
      Entries(r.value.report, span.name) == Entries(d.report, span.name) + [EntryFor(d.last.value, span)]
    ensures r.Some? ==>
      forall p :: p != span.name ==> Entries(r.value.report, p) == Entries(d.report, p)
  {
    if !Admits(allow, span.name) then Some(Docs(d.report, None))
    else if d.last.None? then None
    else Some(Docs(Append(d.report, span.name, EntryFor(d.last.value, span)), None))
  }

  /** The spans of a message visited in order; `None` once one of them fails. */
  function SpansVisited(allow: set<Bytes>, d: Docs, spans: seq<Span>): (r: Option<Docs>)
    ensures r.Some? ==> d.report.Keys <= r.value.report.Keys
    ensures r.Some? ==> forall p :: Entries(d.report, p) <= Entries(r.value.report, p)
    decreases |spans|
  {
    if spans == [] then Some(d)
    else
      match SpanVisited(allow, d, spans[0])
      case None => None
      case Some(d') => SpansVisited(allow, d', spans[1..])
  }

  /**
   * `visit_message`: a documentation diagnostic becomes the pending
   * message and its spans are visited; any other message changes nothing.
   */
  function MessageVisited(allow: set<Bytes>, d: Docs, msg: Message): (r: Option<Docs>)
    ensures !FilterMessage(msg) ==> r == Some(d)
    ensures FilterMessage(msg) && msg.spans == [] ==> r == Some(Docs(d.report, Some(msg.message)))
  {
    if FilterMessage(msg) then SpansVisited(allow, Docs(d.report, Some(msg.message)), msg.spans)
    else Some(d)
  }

  /** After at least one span, no message is pending. */
  lemma {:induction false} SpansEmptySlot(allow: set<Bytes>, d: Docs, spans: seq<Span>)
    requires spans != [] && SpansVisited(allow, d, spans).Some?
    ensures SpansVisited(allow, d, spans).value.last.None?
    decreases |spans|
  {
    var d' := SpanVisited(allow, d, spans[0]).value;
    if |spans| > 1 {
      SpansEmptySlot(allow, d', spans[1..]);
    }
  }

  /** Spans that the filter refuses, visited with no message pending, change nothing. */
  lemma {:induction false} RefusedSpansUnchanged(allow: set<Bytes>, report: Report, spans: seq<Span>)
    requires forall i :: 0 <= i < |spans| ==> !Admits(allow, spans[i].name)
    ensures SpansVisited(allow, Docs(report, None), spans) == Some(Docs(report, None))
    decreases |spans|
  {
    if spans != [] {
      RefusedSpansUnchanged(allow, report, spans[1..]);
    }
  }

  /**
   * Only the first span of a message can be admitted: the first span takes
   * (or, refused, drops) the pending message, so any admitted span after
   * it finds none and fails.
   */
  lemma {:induction false} LaterAdmittedSpanFails(allow: set<Bytes>, d: Docs, spans: seq<Span>, j: nat)
    requires 0 < j < |spans| && Admits(allow, spans[j].name)
    ensures SpansVisited(allow, d, spans) == None
  {
    match SpanVisited(allow, d, spans[0])
    case None =>
    case Some(d') =>
      NoPendingFails(allow, d', spans[1..], j - 1);
  }

  /** With no message pending, the first admitted span fails. */
  lemma {:induction false} NoPendingFails(allow: set<Bytes>, d: Docs, spans: seq<Span>, j: nat)
    requires d.last.None? && j < |spans| && Admits(allow, spans[j].name)
    ensures SpansVisited(allow, d, spans) == None
    decreases |spans|
  {
    if j > 0 {
      match SpanVisited(allow, d, spans[0])
      case None =>
      case Some(d') =>
        NoPendingFails(allow, d', spans[1..], j - 1);
    }
  }

  /**
   * A documentation diagnostic whose first span is admitted and whose
   * other spans are refused files exactly one entry: its text at the first
   * span's position, appended to that span's file.
   */
  lemma OneEntryPerMessage(allow: set<Bytes>, d: Docs, msg: Message)
    requires FilterMessage(msg) && msg.spans != [] && Admits(allow, msg.spans[0].name)
    requires forall j :: 0 < j < |msg.spans| ==> !Admits(allow, msg.spans[j].name)
    ensures MessageVisited(allow, d, msg) ==
      Some(Docs(Append(d.report, msg.spans[0].name, EntryFor(msg.message, msg.spans[0])), None))
  {
    var after := Append(d.report, msg.spans[0].name, EntryFor(msg.message, msg.spans[0]));
    RefusedSpansUnchanged(allow, after, msg.spans[1..]);
  }

  /** A documentation diagnostic none of whose spans is admitted changes only the pending slot. */
  lemma NoEntryForRefusedMessage(allow: set<Bytes>, d: Docs, msg: Message)
    requires FilterMessage(msg) && msg.spans != []
    requires forall j :: 0 <= j < |msg.spans| ==> !Admits(allow, msg.spans[j].name)
    ensures MessageVisited(allow, d, msg) == Some(Docs(d.report, None))
  {
    RefusedSpansUnchanged(allow, d.report, msg.spans[1..]);
  }

  // ---------------------------------------------------------------------
  // The report as the sequence of entries filed
  // ---------------------------------------------------------------------

  /** The report that filing `log` in order builds from an empty one. */
  function Group(log: seq<(Bytes, Missing)>): Report
    decreases |log|
  {
    if log == [] then map[]
    else Append(Group(log[..|log| - 1]), log[|log| - 1].0, log[|log| - 1].1)
  }

  /** The entries of `log` filed under `path`, in filing order. */
  function Select(log: seq<(Bytes, Missing)>, path: Bytes): seq<Missing>
    decreases |log|
  {
    if log == [] then []
    else Select(log[..|log| - 1], path) + (if log[|log| - 1].0 == path then [log[|log| - 1].1] else [])
  }

  /**
   * Every file of the report holds exactly its own entries, in the order
   * they were filed (not sorted by row or column), and only files that
   * received an entry appear.
   */
  lemma {:induction false} GroupSelect(log: seq<(Bytes, Missing)>, path: Bytes)
    ensures Entries(Group(log), path) == Select(log, path)
    ensures path in Group(log) <==> exists i :: 0 <= i < |log| && log[i].0 == path
    decreases |log|
  {
    if log != [] {
      var init := log[..|log| - 1];
      GroupSelect(init, path);
      if path in Group(init) {
        var i :| 0 <= i < |init| && init[i].0 == path;
        assert log[i] == init[i];
      }
      if exists i :: 0 <= i < |log| && log[i].0 == path {
        var i :| 0 <= i < |log| && log[i].0 == path;
        if i < |init| {
          assert init[i] == log[i];
        }
      }
    }
  }

  // ---------------------------------------------------------------------
  // The visitors
  // ---------------------------------------------------------------------

  /** The visitor that copies every highlighted line it is shown. */
  class TextCollector {
    var inner: seq<Text>

    constructor()
      ensures inner == []
    {
      inner := [];
    }

    /** `visit_text`: one more copy, after the ones collected before. */
    method VisitText(text: Text)
      modifies this
      ensures inner == old(inner) + [text]
    {
      inner := inner + [text];
    }
  }

  /** `MissingDocs`: the report being built and the message waiting for its span. */
  class MissingDocs {
    var report: Report
    var last: Option<Bytes>
    const paths: set<Bytes>

    /** The entries filed so far, in order. */
    ghost var log: seq<(Bytes, Missing)>

    ghost predicate Valid()
      reads this
    {
      report == Group(log)
    }

    /** `MissingDocs::new`: an empty report, nothing pending, the given path filter. */
    constructor(paths: set<Bytes>)
      ensures Valid()
      ensures report == map[] && last == None && this.paths == paths && log == []
    {
      report := map[];
      last := None;
      this.paths := paths;
      log := [];
    }

    /**
     * `visit_span`: files the pending message under the span's file, with
     * the span's highlighted lines in the order they are visited. `ok` is
     * false where the source fails with "valid tree".
     */
    method VisitSpan(file: Span) returns (ok: bool)
      requires Valid()
      modifies this
      ensures Valid()
      ensures ok <==> SpanVisited(paths, Docs(old(report), old(last)), file).Some?
      ensures ok ==> Some(Docs(report, last)) == SpanVisited(paths, Docs(old(report), old(last)), file)
      ensures !ok ==> report == old(report) && last == None
      ensures log == old(log) +
        if ok && Admits(paths, file.name) then [(file.name, EntryFor(old(last).value, file))] else []
    {
      if !(paths == {} || file.name in paths) {
        last := None;
        return true;
      }
      var pending := last;
      last := None;

      var tv := new TextCollector();
      for i := 0 to |file.texts|
        invariant tv.inner == file.texts[..i]
        invariant report == old(report) && last == None && log == old(log)
      {
        tv.VisitText(file.texts[i]);
      }
      assert file.texts[..|file.texts|] == file.texts;

      if pending.None? {
        return false;
      }
      var missing := Missing(Spanned(pending.value, file.row, file.col), tv.inner);
      log := log + [(file.name, missing)];
      report := report[file.name := Entries(report, file.name) + [missing]];
      assert log[..|log| - 1] == old(log);
      ok := true;
    }

    /**
     * `visit_message`: a documentation diagnostic becomes the pending
     * message and its spans are visited in order; any other message
     * changes nothing. `ok` is false once a span fails.
     */
    method VisitMessage(message: Message) returns (ok: bool)
      requires Valid()
      modifies this
      ensures Valid()
      ensures ok <==> MessageVisited(paths, Docs(old(report), old(last)), message).Some?
      ensures ok ==> Some(Docs(report, last)) == MessageVisited(paths, Docs(old(report), old(last)), message)
      ensures old(log) <= log
    {
      if !FilterMessage(message) {
        return true;
      }
      last := Some(message.message);
      ghost var start := Docs(report, last);
      var spans := message.spans;
      for i := 0 to |spans|
        invariant Valid() && old(log) <= log
        invariant SpansVisited(paths, start, spans) == SpansVisited(paths, Docs(report, last), spans[i..])
      {
        assert spans[i..][0] == spans[i] && spans[i..][1..] == spans[i + 1..];
        ok := VisitSpan(spans[i]);
        if !ok {
          return false;
        }
      }
      ok := true;
    }
  }
}
