/**
 * The line store of App.tsx: turning an uploaded XML text into lines, and the
 * replace-on-write edits of one line (status toggle, comment, content) and of
 * the file list (automatic review on a find, removal of a file).
 */
module LineStore {
  import opened Wrappers
  import opened Seqs
  import opened Text
  import opened Types

  predicate IsNonBlank(s: string)
  {
    Trim(s) != ""
  }

  function LineContent(l: LineData): string
  {
    l.content
  }

  predicate LineIsNonBlank(l: LineData)
  {
    IsNonBlank(l.content)
  }

  /** The line made from segment `index` of a file: a fresh pending line without comment. */
  function MakeLine(fileId: string, index: nat, suffix: string, segment: string): LineData
  {
    LineData("line-" + fileId + "-" + NatToString(index) + "-" + suffix, segment, Pending, None)
  }

  /** Every segment of the text turned into a line, numbered by its position among all segments. */
  function NumberedLines(segments: seq<string>, fileId: string, suffix: nat -> string): (r: seq<LineData>)
    ensures |r| == |segments|
    ensures forall i :: 0 <= i < |segments| ==> r[i] == MakeLine(fileId, i, suffix(i), segments[i])
  {
    seq(|segments|, i requires 0 <= i < |segments| => MakeLine(fileId, i, suffix(i), segments[i]))
  }

  /**
   * The lines of an uploaded text: split on '\n', numbered, and the blank ones
   * dropped. `suffix(i)` stands for the random tag the source appends to the id.
   */
  function IngestLines(text: string, fileId: string, suffix: nat -> string): seq<LineData>
  {
    Filter(NumberedLines(SplitLines(text), fileId, suffix), LineIsNonBlank)
  }

  /** The FileData built for one uploaded XML file. */
  function IngestFile(fileId: string, name: string, text: string, suffix: nat -> string): (f: FileData)
    ensures f.id == fileId && f.name == name && f.content == text
    ensures f.lines == IngestLines(text, fileId, suffix)
  {
    FileData(fileId, name, text, IngestLines(text, fileId, suffix))
  }

  /** Ingestion keeps exactly the non-blank segments of the text, untrimmed and in their original order. */
  lemma IngestContents(text: string, fileId: string, suffix: nat -> string)
    ensures Map(IngestLines(text, fileId, suffix), LineContent) == Filter(SplitLines(text), IsNonBlank)
  {
    var segments := SplitLines(text);
    var numbered := NumberedLines(segments, fileId, suffix);
    assert forall i :: 0 <= i < |segments| ==> Map(numbered, LineContent)[i] == segments[i];
    assert Map(numbered, LineContent) == segments;
    MapFilter(numbered, LineContent, LineIsNonBlank, IsNonBlank);
  }

  /** There is one line per non-blank segment. */
  lemma IngestCount(text: string, fileId: string, suffix: nat -> string)
    ensures |IngestLines(text, fileId, suffix)| == Count(SplitLines(text), IsNonBlank)
  {
    IngestContents(text, fileId, suffix);
    FilterLength(SplitLines(text), IsNonBlank);
    var kept := IngestLines(text, fileId, suffix);
    assert |kept| == |Map(kept, LineContent)|;
  }

  /** Every ingested line is non-blank, pending and without comment. */
  lemma IngestFresh(text: string, fileId: string, suffix: nat -> string)
    ensures forall l :: l in IngestLines(text, fileId, suffix) ==>
              l.status == Pending && l.comment == None && IsNonBlank(l.content)
  {
    var numbered := NumberedLines(SplitLines(text), fileId, suffix);
    var kept := Filter(numbered, LineIsNonBlank);
    forall l | l in kept ensures l.status == Pending && l.comment == None && IsNonBlank(l.content) {
      assert l in numbered && LineIsNonBlank(l);
      var i :| 0 <= i < |numbered| && numbered[i] == l;
    }
  }

  /** Replace, in the file with id `fileId`, every line with id `lineId` by `edit` of it. */
  function EditLine(files: seq<FileData>, fileId: string, lineId: string, edit: LineData -> LineData): (r: seq<FileData>)
    ensures |r| == |files|
    ensures forall i :: 0 <= i < |files| ==>
              r[i].id == files[i].id && r[i].name == files[i].name && r[i].content == files[i].content
              && |r[i].lines| == |files[i].lines|
    ensures forall i, j :: 0 <= i < |files| && 0 <= j < |files[i].lines| ==>
              r[i].lines[j] == if files[i].id == fileId && files[i].lines[j].id == lineId
                               then edit(files[i].lines[j]) else files[i].lines[j]
  {
    seq(|files|, i requires 0 <= i < |files| =>
      if files[i].id != fileId then files[i]
      else files[i].(lines := seq(|files[i].lines|, j requires 0 <= j < |files[i].lines| =>
        if files[i].lines[j].id == lineId then edit(files[i].lines[j]) else files[i].lines[j])))
  }

  /** Two file lists with the same files, the same lines and the same ids in the same places. */
  predicate SameShape(a: seq<FileData>, b: seq<FileData>)
  {
    && |a| == |b|
    && (forall i :: 0 <= i < |a| ==> a[i].id == b[i].id && |a[i].lines| == |b[i].lines|)
    && (forall i, j :: 0 <= i < |a| && 0 <= j < |a[i].lines| ==> a[i].lines[j].id == b[i].lines[j].id)
  }

  /** Line edits never add, remove, reorder or re-identify lines or files. */
  lemma EditKeepsShape(files: seq<FileData>, fileId: string, lineId: string, edit: LineData -> LineData)
    requires forall l :: edit(l).id == l.id
    ensures SameShape(files, EditLine(files, fileId, lineId, edit))
  {
  }

  function FlipStatus(l: LineData): LineData
  {
    l.(status := if l.status == Reviewed then Pending else Reviewed)
  }

  /** handleToggleLineStatus. */
  function ToggleLineStatus(files: seq<FileData>, fileId: string, lineId: string): seq<FileData>
  {
    EditLine(files, fileId, lineId, FlipStatus)
  }

  /**
   * The toggle flips pending and reviewed on the addressed line only; its id,
   * content and comment and every other line and file stay as they were.
   */
  lemma ToggleSpec(files: seq<FileData>, fileId: string, lineId: string)
    ensures SameShape(files, ToggleLineStatus(files, fileId, lineId))
    ensures forall i, j :: 0 <= i < |files| && 0 <= j < |files[i].lines| ==>
              var before := files[i].lines[j];
              var after := ToggleLineStatus(files, fileId, lineId)[i].lines[j];
              && after.id == before.id && after.content == before.content && after.comment == before.comment
              && (after.status == before.status <==> !(files[i].id == fileId && before.id == lineId))
  {
  }

  /** Toggling the same line twice restores the file list. */
  lemma {:induction false} ToggleTwice(files: seq<FileData>, fileId: string, lineId: string)
    ensures ToggleLineStatus(ToggleLineStatus(files, fileId, lineId), fileId, lineId) == files
  {
    var once := ToggleLineStatus(files, fileId, lineId);
    var twice := ToggleLineStatus(once, fileId, lineId);
    forall i | 0 <= i < |files| ensures twice[i] == files[i] {
      assert twice[i].lines == files[i].lines;
    }
  }

  function WithComment(comment: string): LineData -> LineData
  {
    (l: LineData) => l.(comment := Some(comment), status := Reviewed)
  }

  function WithoutComment(l: LineData): LineData
  {
    l.(comment := None)
  }

  function WithContent(content: string): LineData -> LineData
  {
    (l: LineData) => l.(content := content)
  }

  /** The line part of handleSaveComment: comment set and the line marked reviewed. */
  function SetComment(files: seq<FileData>, fileId: string, lineId: string, comment: string): seq<FileData>
  {
    EditLine(files, fileId, lineId, WithComment(comment))
  }

  /** handleDeleteComment. */
  function DeleteComment(files: seq<FileData>, fileId: string, lineId: string): seq<FileData>
  {
    EditLine(files, fileId, lineId, WithoutComment)
  }

  /** handleUpdateLineContent. */
  function UpdateLineContent(files: seq<FileData>, fileId: string, lineId: string, content: string): seq<FileData>
  {
    EditLine(files, fileId, lineId, WithContent(content))
  }

  /** Saving a comment leaves the addressed line reviewed with that comment, keeps its content, and touches nothing else. */
  lemma SetCommentSpec(files: seq<FileData>, fileId: string, lineId: string, comment: string)
    ensures SameShape(files, SetComment(files, fileId, lineId, comment))
    ensures forall i, j :: 0 <= i < |files| && 0 <= j < |files[i].lines| ==>
              var before := files[i].lines[j];
              var after := SetComment(files, fileId, lineId, comment)[i].lines[j];
              if files[i].id == fileId && before.id == lineId
              then after.comment == Some(comment) && after.status == Reviewed && after.content == before.content
              else after == before
    ensures SetComment(SetComment(files, fileId, lineId, comment), fileId, lineId, comment)
            == SetComment(files, fileId, lineId, comment)
  {
    var once := SetComment(files, fileId, lineId, comment);
    var twice := SetComment(once, fileId, lineId, comment);
    forall i | 0 <= i < |files| ensures twice[i] == once[i] {
      assert twice[i].lines == once[i].lines;
    }
  }

  /** Deleting a comment clears it on the addressed line only; status and content stay. */
  lemma DeleteCommentSpec(files: seq<FileData>, fileId: string, lineId: string)
    ensures SameShape(files, DeleteComment(files, fileId, lineId))
    ensures forall i, j :: 0 <= i < |files| && 0 <= j < |files[i].lines| ==>
              var before := files[i].lines[j];
              var after := DeleteComment(files, fileId, lineId)[i].lines[j];
              if files[i].id == fileId && before.id == lineId
              then after.comment == None && after.status == before.status && after.content == before.content
              else after == before
  {
  }

  /** A content edit replaces the text of the addressed line only; its id, status and comment stay. */
  lemma UpdateContentSpec(files: seq<FileData>, fileId: string, lineId: string, content: string)
    ensures SameShape(files, UpdateLineContent(files, fileId, lineId, content))
    ensures forall i, j :: 0 <= i < |files| && 0 <= j < |files[i].lines| ==>
              var before := files[i].lines[j];
              var after := UpdateLineContent(files, fileId, lineId, content)[i].lines[j];
              if files[i].id == fileId && before.id == lineId
              then after == before.(content := content)
              else after == before
  {
  }

  /**
   * The automatic review of a found line (the fileData update of
   * handleFindXmlOperation): the line at `index` of the file `fileId` becomes
   * reviewed; a file whose line is already reviewed is returned as it is.
   */
  function MarkFound(files: seq<FileData>, fileId: string, index: nat): (r: seq<FileData>)
    ensures |r| == |files|
  {
    seq(|files|, i requires 0 <= i < |files| =>
      var f := files[i];
      if f.id == fileId && index < |f.lines| && f.lines[index].status != Reviewed
      then f.(lines := f.lines[index := f.lines[index].(status := Reviewed)])
      else f)
  }

  /**
   * A find marks only the found line reviewed: every other line, every other
   * file and every line's id, content and comment stay as they were.
   */
  lemma MarkFoundSpec(files: seq<FileData>, fileId: string, index: nat)
    ensures SameShape(files, MarkFound(files, fileId, index))
    ensures forall i, j :: 0 <= i < |files| && 0 <= j < |files[i].lines| ==>
              var before := files[i].lines[j];
              var after := MarkFound(files, fileId, index)[i].lines[j];
              && after.id == before.id && after.content == before.content && after.comment == before.comment
              && after.status == (if files[i].id == fileId && j == index then Reviewed else before.status)
  {
  }

  /** A found line that is already reviewed leaves the file list unchanged. */
  lemma {:induction false} MarkFoundAlreadyReviewed(files: seq<FileData>, fileId: string, index: nat)
    requires forall i :: 0 <= i < |files| && files[i].id == fileId && index < |files[i].lines| ==>
               files[i].lines[index].status == Reviewed
    ensures MarkFound(files, fileId, index) == files
  {
    var r := MarkFound(files, fileId, index);
    forall i | 0 <= i < |files| ensures r[i] == files[i] {
    }
  }

  /** Marking the same line twice is the same as marking it once. */
  lemma {:induction false} MarkFoundIdempotent(files: seq<FileData>, fileId: string, index: nat)
    ensures MarkFound(MarkFound(files, fileId, index), fileId, index) == MarkFound(files, fileId, index)
  {
    var once := MarkFound(files, fileId, index);
    MarkFoundAlreadyReviewed(once, fileId, index);
  }

  /** handleRemoveFile on the XML file list: drop the file with that id; links to it are not touched. */
  function RemoveFile(files: seq<FileData>, fileId: string): seq<FileData>
  {
    Filter(files, (f: FileData) => f.id != fileId)
  }

  /**
   * After removal no file has the removed id, and every other file is kept,
   * as often as it occurred and in its original order.
   */
  lemma RemoveFileSpec(files: seq<FileData>, fileId: string)
    ensures forall f :: f in RemoveFile(files, fileId) <==> f in files && f.id != fileId
    ensures |RemoveFile(files, fileId)| <= |files|
    ensures forall f :: multiset(RemoveFile(files, fileId))[f] == if f.id != fileId then multiset(files)[f] else 0
    ensures forall k :: 0 <= k <= |files| ==> RemoveFile(files, fileId) == RemoveFile(files[..k], fileId) + RemoveFile(files[k..], fileId)
  {
    FilterMultiset(files, (f: FileData) => f.id != fileId);
    FilterSplit(files, (f: FileData) => f.id != fileId);
  }

  /** The position of the first file with id `fileId` (`fileData.find(f => f.id === id)`). */
  function FindFile(files: seq<FileData>, fileId: string): (r: Option<nat>)
    ensures r.Some? ==> r.value < |files| && files[r.value].id == fileId
                        && forall i :: 0 <= i < r.value ==> files[i].id != fileId
    ensures r.None? ==> forall i :: 0 <= i < |files| ==> files[i].id != fileId
  {
    if files == [] then None
    else if files[0].id == fileId then Some(0)
    else match FindFile(files[1..], fileId)
      case Some(k) => Some(k + 1)
      case None => None
  }

  /** Once its file is removed, a link's target file can no longer be found: the link dangles. */
  lemma RemovedFileDangles(files: seq<FileData>, fileId: string)
    ensures FindFile(RemoveFile(files, fileId), fileId) == None
  {
    var r := RemoveFile(files, fileId);
    forall i | 0 <= i < |r| ensures r[i].id != fileId {
      assert r[i] in r;
    }
  }
}
