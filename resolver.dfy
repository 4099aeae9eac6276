/**
 * The XML operation resolver (handleFindXmlOperation in App.tsx): the first
 * line, over the loaded XML files in order, that carries the movement's
 * declaration number or its amount, and the effects of finding it.
 */
module Resolver {
  import opened Wrappers
  import opened Text
  import opened Types
  import opened LineStore
  import opened LinkGraph

  /**
   * What the resolver searches for. JavaScript's renderings of the inputs
   * are given: `ndcNumber` is `${Number(ndc)}`, `amountNonZero` is the
   * truthiness of the amount, `amountText` and `amountFixed` are
   * `Math.abs(amount).toString()` and `.toFixed(2)`.
   */
  datatype FindQuery = FindQuery(ndc: string, ndcNumber: string, amountNonZero: bool,
                                 amountText: string, amountFixed: string)

  /** `ndc && ndc.trim() !== ''`. */
  predicate UsesNdc(q: FindQuery)
  {
    Trim(q.ndc) != ""
  }

  function Attr(name: string, value: string): string
  {
    name + "=\"" + value + "\""
  }

  /** The findIndex callback: tried on the lowercased line content. */
  predicate LineMatches(content: string, q: FindQuery)
  {
    var c := Lower(content);
    || (UsesNdc(q) && (Includes(c, Attr("ndec", q.ndc)) || Includes(c, Attr("ndec", q.ndcNumber))))
    || (q.amountNonZero && (Includes(c, Attr("vusd", q.amountText)) || Includes(c, Attr("vusd", q.amountFixed))))
  }

  /** The findIndex callback as a value, for the search functions below. */
  function Matcher(q: FindQuery): string -> bool
  {
    (content: string) => LineMatches(content, q)
  }

  /** `lines.findIndex(l => matches(l.content))`, as an index or None for -1. */
  function FirstLineMatch(lines: seq<LineData>, matches: string -> bool): (r: Option<nat>)
    ensures r.None? <==> forall j :: 0 <= j < |lines| ==> !matches(lines[j].content)
    ensures r.Some? ==> r.value < |lines| && matches(lines[r.value].content)
                        && forall j :: 0 <= j < r.value ==> !matches(lines[j].content)
  {
    if lines == [] then None
    else if matches(lines[0].content) then Some(0)
    else match FirstLineMatch(lines[1..], matches)
      case None => None
      case Some(j) => Some(j + 1)
  }

  /** A found line, as (file index, line index). */
  datatype Hit = Hit(file: nat, line: nat)

  /** The outer loop over the files from `from` on, stopping at the first file with a match. */
  function ResolveFrom(files: seq<FileData>, matches: string -> bool, from: nat): (r: Option<Hit>)
    requires from <= |files|
    ensures r.Some? ==>
              && from <= r.value.file < |files| && r.value.line < |files[r.value.file].lines|
              && matches(files[r.value.file].lines[r.value.line].content)
              && (forall j :: 0 <= j < r.value.line ==> !matches(files[r.value.file].lines[j].content))
    decreases |files| - from
  {
    if from == |files| then None
    else match FirstLineMatch(files[from].lines, matches)
      case Some(j) => Some(Hit(from, j))
      case None => ResolveFrom(files, matches, from + 1)
  }

  /** The line handleFindXmlOperation settles on for a query, if any. */
  function Resolve(files: seq<FileData>, q: FindQuery): (r: Option<Hit>)
    ensures r.Some? ==> r.value.file < |files| && r.value.line < |files[r.value.file].lines|
  {
    ResolveFrom(files, Matcher(q), 0)
  }

  /** No line of files `from` to `to - 1` matches. */
  predicate NoMatchBetween(files: seq<FileData>, matches: string -> bool, from: nat, to: nat)
    requires to <= |files|
  {
    forall i, j :: from <= i < to && 0 <= j < |files[i].lines| ==> !matches(files[i].lines[j].content)
  }

  lemma {:induction false} ResolveFromNone(files: seq<FileData>, matches: string -> bool, from: nat)
    requires from <= |files|
    ensures ResolveFrom(files, matches, from).None? <==> NoMatchBetween(files, matches, from, |files|)
    decreases |files| - from
  {
    if from < |files| {
      ResolveFromNone(files, matches, from + 1);
    }
  }

  lemma {:induction false} ResolveFromEarlier(files: seq<FileData>, matches: string -> bool, from: nat)
    requires from <= |files|
    ensures var r := ResolveFrom(files, matches, from);
            r.Some? ==> NoMatchBetween(files, matches, from, r.value.file)
    decreases |files| - from
  {
    if from < |files| && FirstLineMatch(files[from].lines, matches).None? {
      ResolveFromEarlier(files, matches, from + 1);
    }
  }

  /**
   * The scan finds nothing exactly when no line of any file matches; what it
   * finds is a matching line, no line of an earlier file matches, and no
   * earlier line of that file matches.
   */
  lemma ResolveIsFirst(files: seq<FileData>, matches: string -> bool)
    ensures ResolveFrom(files, matches, 0).None? <==> NoMatchBetween(files, matches, 0, |files|)
    ensures var r := ResolveFrom(files, matches, 0);
            r.Some? ==>
              && matches(files[r.value.file].lines[r.value.line].content)
              && NoMatchBetween(files, matches, 0, r.value.file)
              && (forall j :: 0 <= j < r.value.line ==> !matches(files[r.value.file].lines[j].content))
  {
    ResolveFromNone(files, matches, 0);
    ResolveFromEarlier(files, matches, 0);
  }

  /**
   * For a query: nothing is found exactly when no line of any file matches
   * it; otherwise the line found matches, no line of an earlier file
   * matches, and no earlier line of the same file matches.
   */
  lemma ResolveSpec(files: seq<FileData>, q: FindQuery)
    ensures Resolve(files, q).None? <==>
              forall i, j :: 0 <= i < |files| && 0 <= j < |files[i].lines| ==> !LineMatches(files[i].lines[j].content, q)
    ensures Resolve(files, q).Some? ==>
              var h := Resolve(files, q).value;
              && LineMatches(files[h.file].lines[h.line].content, q)
              && (forall i, j :: 0 <= i < h.file && 0 <= j < |files[i].lines| ==> !LineMatches(files[i].lines[j].content, q))
              && (forall j :: 0 <= j < h.line ==> !LineMatches(files[h.file].lines[j].content, q))
  {
    ResolveIsFirst(files, Matcher(q));
  }

  /** Case is folded on the content only: an ndc with an upper-case ASCII letter never matches as typed. */
  lemma UppercaseNdcNotMatchedAsTyped(content: string, q: FindQuery, k: nat)
    requires k < |q.ndc| && 'A' <= q.ndc[k] <= 'Z'
    ensures !Includes(Lower(content), Attr("ndec", q.ndc))
  {
    IncludesIff(Lower(content), Attr("ndec", q.ndc));
    var c := Lower(content);
    var pat := Attr("ndec", q.ndc);
    assert pat[6 + k] == q.ndc[k];
    forall i: nat | i <= |c| ensures !OccursAt(c, pat, i) {
      if i + |pat| <= |c| {
        assert c[i..i + |pat|][6 + k] == c[i + 6 + k];
      }
    }
  }

  /** Lines that differ only in status, id or comment match alike. */
  lemma {:induction false} FirstLineMatchContents(a: seq<LineData>, b: seq<LineData>, matches: string -> bool)
    requires |a| == |b|
    requires forall j :: 0 <= j < |a| ==> a[j].content == b[j].content
    ensures FirstLineMatch(a, matches) == FirstLineMatch(b, matches)
  {
    if a != [] {
      FirstLineMatchContents(a[1..], b[1..], matches);
    }
  }

  lemma {:induction false} ResolveFromContents(a: seq<FileData>, b: seq<FileData>, matches: string -> bool, from: nat)
    requires |a| == |b| && from <= |a|
    requires forall i :: 0 <= i < |a| ==> |a[i].lines| == |b[i].lines|
    requires forall i, j :: 0 <= i < |a| && 0 <= j < |a[i].lines| ==> a[i].lines[j].content == b[i].lines[j].content
    ensures ResolveFrom(a, matches, from) == ResolveFrom(b, matches, from)
    decreases |a| - from
  {
    if from < |a| {
      FirstLineMatchContents(a[from].lines, b[from].lines, matches);
      ResolveFromContents(a, b, matches, from + 1);
    }
  }

  /** The file list after a find: the found line is marked reviewed in every file with that id. */
  function FindFiles(files: seq<FileData>, q: FindQuery): seq<FileData>
  {
    match Resolve(files, q)
    case None => files
    case Some(h) => MarkFound(files, files[h.file].id, h.line)
  }

  /** The movement list after a find: when a movement id is given, that movement is linked to the found line. */
  function FindMovements(files: seq<FileData>, ms: seq<AuditMovement>, q: FindQuery, movementId: Option<string>): seq<AuditMovement>
  {
    match Resolve(files, q)
    case None => ms
    case Some(h) =>
      if Truthy(movementId) then
        var f := files[h.file];
        AddXmlLink(ms, movementId.value, f.id, f.lines[h.line].id, f.name, XmlLabel(f.name, h.line))
      else ms
  }

  /** Marking the found line reviewed does not change what the resolver finds. */
  lemma ResolveAfterFind(files: seq<FileData>, q: FindQuery)
    ensures Resolve(FindFiles(files, q), q) == Resolve(files, q)
    ensures SameShape(files, FindFiles(files, q))
  {
    match Resolve(files, q)
    case None =>
    case Some(h) =>
      MarkFoundSpec(files, files[h.file].id, h.line);
      ResolveFromContents(FindFiles(files, q), files, Matcher(q), 0);
  }

  /**
   * After a find the found line is reviewed; running the same find again
   * changes neither the files nor the movements (the line is already
   * reviewed and the link already present).
   */
  lemma FindTwice(files: seq<FileData>, ms: seq<AuditMovement>, q: FindQuery, movementId: Option<string>)
    ensures var h := Resolve(files, q);
            h.Some? ==> FindFiles(files, q)[h.value.file].lines[h.value.line].status == Reviewed
    ensures var f1 := FindFiles(files, q);
            FindFiles(f1, q) == f1
    ensures var f1 := FindFiles(files, q);
            var m1 := FindMovements(files, ms, q, movementId);
            FindMovements(f1, m1, q, movementId) == m1
  {
    ResolveAfterFind(files, q);
    match Resolve(files, q)
    case None =>
    case Some(h) =>
      var f1 := FindFiles(files, q);
      MarkFoundSpec(files, files[h.file].id, h.line);
      MarkFoundIdempotent(files, files[h.file].id, h.line);
      assert f1[h.file].name == files[h.file].name;
      if Truthy(movementId) {
        var f := files[h.file];
        AddXmlLinkIdempotent(ms, movementId.value, f.id, f.lines[h.line].id, f.name, XmlLabel(f.name, h.line));
      }
  }
}
