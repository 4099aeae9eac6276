/**
 * The intelligent XML search of App.tsx (xmlSearchResults): every line, in
 * file order and line order, whose lowercased content contains the lowercased
 * term, reported with its one-based line number and its page.
 */
module Search {
  import opened Wrappers
  import opened Text
  import opened Types

  /** A line of the loaded XML files, as (file index, line index). */
  datatype Pos = Pos(file: nat, line: nat)

  datatype SearchResult = SearchResult(fileId: string, fileName: string, lineId: string,
                                       lineNumber: nat, content: string, page: nat)

  predicate ValidPos(files: seq<FileData>, p: Pos)
  {
    p.file < |files| && p.line < |files[p.file].lines|
  }

  /** The order in which the search visits lines. */
  predicate Before(p: Pos, q: Pos)
  {
    p.file < q.file || (p.file == q.file && p.line < q.line)
  }

  predicate StrictlyOrdered(ps: seq<Pos>)
  {
    forall a, b :: 0 <= a < b < |ps| ==> Before(ps[a], ps[b])
  }

  /** The test applied to each line content: `content.toLowerCase().includes(term)` for a term already lowercased. */
  function HitTest(lowerTerm: string): string -> bool
  {
    (content: string) => Includes(Lower(content), lowerTerm)
  }

  /** The lines among the first `n` of file `fi` that pass `hit`. */
  function LinePositions(files: seq<FileData>, hit: string -> bool, fi: nat, n: nat): (r: seq<Pos>)
    requires fi < |files| && n <= |files[fi].lines|
    ensures forall k :: 0 <= k < |r| ==> ValidPos(files, r[k]) && r[k].file == fi && r[k].line < n
  {
    if n == 0 then []
    else
      var prev := LinePositions(files, hit, fi, n - 1);
      if hit(files[fi].lines[n - 1].content) then prev + [Pos(fi, n - 1)] else prev
  }

  /** The lines of the first `m` files that pass `hit`, in visiting order. */
  function Positions(files: seq<FileData>, hit: string -> bool, m: nat): (r: seq<Pos>)
    requires m <= |files|
    ensures forall k :: 0 <= k < |r| ==> ValidPos(files, r[k]) && r[k].file < m
  {
    if m == 0 then []
    else
      var prev := Positions(files, hit, m - 1);
      var last := LinePositions(files, hit, m - 1, |files[m - 1].lines|);
      assert forall k :: 0 <= k < |last| ==> ValidPos(files, last[k]);
      prev + last
  }

  /** Within one file the listed lines are in line order. */
  lemma {:induction false} LinePositionsOrdered(files: seq<FileData>, hit: string -> bool, fi: nat, n: nat)
    requires fi < |files| && n <= |files[fi].lines|
    ensures forall a, b :: 0 <= a < b < |LinePositions(files, hit, fi, n)| ==>
              LinePositions(files, hit, fi, n)[a].line < LinePositions(files, hit, fi, n)[b].line
  {
    if n > 0 {
      LinePositionsOrdered(files, hit, fi, n - 1);
      var prev := LinePositions(files, hit, fi, n - 1);
      if hit(files[fi].lines[n - 1].content) {
        var r := prev + [Pos(fi, n - 1)];
        forall a, b | 0 <= a < b < |r| ensures r[a].line < r[b].line {
          assert r[a] == prev[a];
          if b < |prev| {
            assert r[b] == prev[b];
            assert prev[a].line < prev[b].line;
          } else {
            assert r[b] == Pos(fi, n - 1);
            assert prev[a].line < n - 1;
          }
        }
        assert LinePositions(files, hit, fi, n) == r;
      }
    }
  }

  /** Within one file a line is listed exactly when it passes the test. */
  lemma {:induction false} LinePositionsHits(files: seq<FileData>, hit: string -> bool, fi: nat, n: nat)
    requires fi < |files| && n <= |files[fi].lines|
    ensures var r := LinePositions(files, hit, fi, n);
            forall j :: 0 <= j < n ==> (Pos(fi, j) in r <==> hit(files[fi].lines[j].content))
  {
    if n > 0 {
      LinePositionsHits(files, hit, fi, n - 1);
      var prev := LinePositions(files, hit, fi, n - 1);
      assert Pos(fi, n - 1) !in prev;
    }
  }

  lemma LinePositionsSpec(files: seq<FileData>, hit: string -> bool, fi: nat, n: nat)
    requires fi < |files| && n <= |files[fi].lines|
    ensures var r := LinePositions(files, hit, fi, n);
            forall a, b :: 0 <= a < b < |r| ==> r[a].line < r[b].line
    ensures var r := LinePositions(files, hit, fi, n);
            forall j :: 0 <= j < n ==> (Pos(fi, j) in r <==> hit(files[fi].lines[j].content))
  {
    LinePositionsOrdered(files, hit, fi, n);
    LinePositionsHits(files, hit, fi, n);
  }

  /** Over the first `m` files the hits are in visiting order, and a line is listed exactly when it passes the test. */
  lemma {:induction false} PositionsSpec(files: seq<FileData>, hit: string -> bool, m: nat)
    requires m <= |files|
    ensures StrictlyOrdered(Positions(files, hit, m))
    ensures forall p :: ValidPos(files, p) && p.file < m ==>
              (p in Positions(files, hit, m) <==> hit(files[p.file].lines[p.line].content))
  {
    if m > 0 {
      PositionsSpec(files, hit, m - 1);
      LinePositionsSpec(files, hit, m - 1, |files[m - 1].lines|);
      var prev := Positions(files, hit, m - 1);
      var last := LinePositions(files, hit, m - 1, |files[m - 1].lines|);
      var r := prev + last;
      forall a, b | 0 <= a < b < |r| ensures Before(r[a], r[b]) {
        if b < |prev| {
          assert r[a] == prev[a] && r[b] == prev[b];
        } else if a >= |prev| {
          assert r[a] == last[a - |prev|] && r[b] == last[b - |prev|];
        } else {
          assert r[a] == prev[a] && r[b] == last[b - |prev|];
        }
      }
      forall p | ValidPos(files, p) && p.file < m
        ensures p in r <==> hit(files[p.file].lines[p.line].content)
      {
        if p.file < m - 1 {
          assert p !in last;
        } else {
          assert p !in prev;
          assert p == Pos(m - 1, p.line);
        }
      }
    }
  }

  /** The result entry the search reports for one line. */
  function Entry(files: seq<FileData>, p: Pos): (e: SearchResult)
    requires ValidPos(files, p)
    ensures e.lineNumber == p.line + 1 && e.page == PageOf(p.line)
  {
    var f := files[p.file];
    var l := f.lines[p.line];
    SearchResult(f.id, f.name, l.id, p.line + 1, l.content, PageOf(p.line))
  }

  function Entries(files: seq<FileData>, ps: seq<Pos>): (r: seq<SearchResult>)
    requires forall k :: 0 <= k < |ps| ==> ValidPos(files, ps[k])
    ensures |r| == |ps|
    ensures forall k :: 0 <= k < |ps| ==> r[k] == Entry(files, ps[k])
  {
    seq(|ps|, k requires 0 <= k < |ps| => Entry(files, ps[k]))
  }

  lemma EntriesAppend(files: seq<FileData>, ps: seq<Pos>, qs: seq<Pos>)
    requires forall k :: 0 <= k < |ps| ==> ValidPos(files, ps[k])
    requires forall k :: 0 <= k < |qs| ==> ValidPos(files, qs[k])
    ensures forall k :: 0 <= k < |ps + qs| ==> ValidPos(files, (ps + qs)[k])
    ensures Entries(files, ps + qs) == Entries(files, ps) + Entries(files, qs)
  {
    assert forall k :: 0 <= k < |ps + qs| ==> ValidPos(files, (ps + qs)[k]) by {
      forall k | 0 <= k < |ps + qs| ensures ValidPos(files, (ps + qs)[k]) {
        if k < |ps| {
          assert (ps + qs)[k] == ps[k];
        } else {
          assert (ps + qs)[k] == qs[k - |ps|];
        }
      }
    }
  }

  /** What xmlSearchResults evaluates to: null for a term shorter than two UTF-16 code units. */
  function SearchResults(files: seq<FileData>, term: string): Option<seq<SearchResult>>
  {
    if Utf16Length(term) < 2 then None
    else Some(Entries(files, Positions(files, HitTest(Lower(term)), |files|)))
  }

  /**
   * A search either declines a short term or reports, in visiting order,
   * exactly the lines that contain the term, ignoring case, each with the
   * file, line id, content, line number and page of that line.
   */
  lemma SearchResultsSpec(files: seq<FileData>, term: string)
    ensures SearchResults(files, term).None? <==> Utf16Length(term) < 2
    ensures Utf16Length(term) >= 2 ==>
              var ps := Positions(files, HitTest(Lower(term)), |files|);
              && SearchResults(files, term).value == Entries(files, ps)
              && StrictlyOrdered(ps)
              && (forall k :: 0 <= k < |ps| ==> ValidPos(files, ps[k]))
              && (forall p :: ValidPos(files, p) ==> (p in ps <==> Includes(Lower(files[p.file].lines[p.line].content), Lower(term))))
  {
    PositionsSpec(files, HitTest(Lower(term)), |files|);
  }

  /** The search ignores the case of the term, for the modelled lowercase map. */
  lemma SearchIgnoresTermCase(files: seq<FileData>, a: string, b: string)
    requires Lower(a) == Lower(b)
    ensures SearchResults(files, a) == SearchResults(files, b)
  {
    Utf16LengthLower(a);
    Utf16LengthLower(b);
  }

  /** A single emoji is two UTF-16 code units long, so it is already searched for. */
  lemma AstralTermSearched(files: seq<FileData>)
    ensures SearchResults(files, "\U{1F600}").Some?
  {
  }

  /** Every reported page is the page on which the line is displayed. */
  lemma SearchPagesDisplay(files: seq<FileData>, term: string)
    requires Utf16Length(term) >= 2
    ensures forall e :: e in SearchResults(files, term).value ==>
              e.page >= 1 && (e.page - 1) * ItemsPerPage < e.lineNumber <= e.page * ItemsPerPage
  {
    var rs := SearchResults(files, term).value;
    var ps := Positions(files, HitTest(Lower(term)), |files|);
    forall e | e in rs ensures e.page >= 1 && (e.page - 1) * ItemsPerPage < e.lineNumber <= e.page * ItemsPerPage {
      var k :| 0 <= k < |rs| && rs[k] == e;
      assert e == Entry(files, ps[k]);
    }
  }

  /** displayedXmlLines: the lines of page `page` (1-based) of a file. */
  function DisplayedLines(lines: seq<LineData>, page: nat): (r: seq<LineData>)
    requires page >= 1
    ensures |r| <= ItemsPerPage
    ensures forall k :: 0 <= k < |r| ==> (page - 1) * ItemsPerPage + k < |lines| && r[k] == lines[(page - 1) * ItemsPerPage + k]
    ensures (page - 1) * ItemsPerPage < |lines| ==> |r| == if |lines| - (page - 1) * ItemsPerPage < ItemsPerPage then |lines| - (page - 1) * ItemsPerPage else ItemsPerPage
  {
    var start := (page - 1) * ItemsPerPage;
    if start >= |lines| then []
    else if start + ItemsPerPage <= |lines| then lines[start..start + ItemsPerPage]
    else lines[start..]
  }

  /** The line at `index` is shown on page PageOf(index), at position `index % 100` of that page. */
  lemma LineOnItsPage(lines: seq<LineData>, index: nat)
    requires index < |lines|
    ensures var r := DisplayedLines(lines, PageOf(index));
            index % ItemsPerPage < |r| && r[index % ItemsPerPage] == lines[index]
  {
  }

  /** The inner forEach of xmlSearchResults: the entries for the lines of file `i` that pass `hit`. */
  method SearchFile(files: seq<FileData>, i: nat, hit: string -> bool) returns (found: seq<SearchResult>)
    requires i < |files|
    ensures found == Entries(files, LinePositions(files, hit, i, |files[i].lines|))
  {
    var f := files[i];
    var lines := f.lines;
    found := [];
    var j := 0;
    while j < |lines|
      invariant 0 <= j <= |lines|
      invariant found == Entries(files, LinePositions(files, hit, i, j))
    {
      ghost var before := LinePositions(files, hit, i, j);
      if hit(lines[j].content) {
        EntriesAppend(files, before, [Pos(i, j)]);
        assert Entry(files, Pos(i, j)) == SearchResult(f.id, f.name, lines[j].id, j + 1, lines[j].content, PageOf(j));
        found := found + [SearchResult(f.id, f.name, lines[j].id, j + 1, lines[j].content, PageOf(j))];
        assert LinePositions(files, hit, i, j + 1) == before + [Pos(i, j)];
      } else {
        assert LinePositions(files, hit, i, j + 1) == before;
      }
      j := j + 1;
    }
  }

  /**
   * The nested forEach loops of xmlSearchResults, proved to compute
   * SearchResults.
   */
  method XmlSearch(files: seq<FileData>, term: string) returns (r: Option<seq<SearchResult>>)
    ensures r == SearchResults(files, term)
  {
    if Utf16Length(term) < 2 {
      return None;
    }
    var hit := HitTest(Lower(term));
    var results: seq<SearchResult> := [];
    var i := 0;
    while i < |files|
      invariant 0 <= i <= |files|
      invariant results == Entries(files, Positions(files, hit, i))
    {
      var found := SearchFile(files, i, hit);
      EntriesAppend(files, Positions(files, hit, i), LinePositions(files, hit, i, |files[i].lines|));
      assert Positions(files, hit, i + 1) == Positions(files, hit, i) + LinePositions(files, hit, i, |files[i].lines|);
      results := results + found;
      i := i + 1;
    }
    return Some(results);
  }
}
