/**
 * The reconciliation session of App.tsx: the component state that the
 * handlers update, as a class with one method per handler. Each method is
 * specified by the functions of the other modules, whose properties are
 * proved there.
 */
module Session {
  import opened Wrappers
  import opened Seqs
  import opened Types
  import Text
  import LineStore
  import LinkGraph
  import Merges
  import Resolver
  import Snapshot

  /** One uploaded browser file: its name and, for an XML file, its text. */
  datatype Upload = Upload(name: string, text: string)

  /** The viewer state the handlers move: active XML file, page, highlighted line, selected declaration, selected lines. */
  datatype ViewState = ViewState(
    activeXmlFileId: Option<string>,
    xmlCurrentPage: nat,
    highlightedLineId: Option<string>,
    selectedDeclarationId: Option<string>,
    selectedXmlLines: set<string>)

  /** What handleFindXmlOperation ends in: the alert for no files, the alert for no match, or the navigation target. */
  datatype FindOutcome = NoFiles | NotFound | Found(fileId: string, lineId: string, page: nat)

  /** The AuditFile records registered for an upload batch. */
  function NewAuditFiles(uploads: seq<Upload>, fileIds: seq<string>): (r: seq<AuditFile>)
    requires |fileIds| == |uploads|
    ensures |r| == |uploads|
    ensures forall k :: 0 <= k < |r| ==> r[k] == AuditFile(fileIds[k], uploads[k].name, None)
  {
    seq(|uploads|, k requires 0 <= k < |uploads| => AuditFile(fileIds[k], uploads[k].name, None))
  }

  /** The random tags of the lines of file `k` of a batch. */
  function SuffixOf(lineSuffix: (nat, nat) -> string, k: nat): nat -> string
  {
    (i: nat) => lineSuffix(k, i)
  }

  /** The FileData record built, in the loop of handleFilesAdded, for file `k` of a batch under its fresh id. */
  function Ingester(lineSuffix: (nat, nat) -> string): (nat, string, Upload) -> FileData
  {
    (k: nat, fileId: string, u: Upload) => LineStore.IngestFile(fileId, u.name, u.text, SuffixOf(lineSuffix, k))
  }

  /** The records `ingest` builds for each upload of a batch, in order. */
  function BuiltData(uploads: seq<Upload>, fileIds: seq<string>, ingest: (nat, string, Upload) -> FileData): (r: seq<FileData>)
    requires |fileIds| == |uploads|
    ensures |r| == |uploads|
    ensures forall k :: 0 <= k < |r| ==> r[k] == ingest(k, fileIds[k], uploads[k])
  {
    seq(|uploads|, k requires 0 <= k < |uploads| => ingest(k, fileIds[k], uploads[k]))
  }

  /** One more upload adds its record at the end. */
  lemma BuiltDataSnoc(uploads: seq<Upload>, fileIds: seq<string>, ingest: (nat, string, Upload) -> FileData, k: nat)
    requires |fileIds| == |uploads| && k < |uploads|
    ensures BuiltData(uploads[..k + 1], fileIds[..k + 1], ingest)
            == BuiltData(uploads[..k], fileIds[..k], ingest) + [ingest(k, fileIds[k], uploads[k])]
  {
    var a := BuiltData(uploads[..k + 1], fileIds[..k + 1], ingest);
    var prev := BuiltData(uploads[..k], fileIds[..k], ingest);
    var b := prev + [ingest(k, fileIds[k], uploads[k])];
    forall i | 0 <= i < |a| ensures a[i] == b[i] {
      assert uploads[..k + 1][i] == uploads[i] && fileIds[..k + 1][i] == fileIds[i];
      if i < k {
        assert uploads[..k][i] == uploads[i] && fileIds[..k][i] == fileIds[i];
        assert b[i] == prev[i];
      }
    }
  }

  /** The FileData records built for an XML upload batch; `lineSuffix(k, i)` is the random tag of line i of file k. */
  function NewFileData(uploads: seq<Upload>, fileIds: seq<string>, lineSuffix: (nat, nat) -> string): (r: seq<FileData>)
    requires |fileIds| == |uploads|
    ensures |r| == |uploads|
  {
    BuiltData(uploads, fileIds, Ingester(lineSuffix))
  }

  /**
   * Each file of an XML upload is registered under its id and keeps, as its
   * lines, exactly the non-blank segments of its text in order, all pending
   * and without comment.
   */
  lemma NewFileDataSpec(uploads: seq<Upload>, fileIds: seq<string>, lineSuffix: (nat, nat) -> string)
    requires |fileIds| == |uploads|
    ensures forall k :: 0 <= k < |uploads| ==>
              var f := NewFileData(uploads, fileIds, lineSuffix)[k];
              && f.id == NewAuditFiles(uploads, fileIds)[k].id == fileIds[k]
              && f.name == uploads[k].name && f.content == uploads[k].text
              && Map(f.lines, LineStore.LineContent) == Filter(Text.SplitLines(uploads[k].text), LineStore.IsNonBlank)
              && (forall l :: l in f.lines ==> l.status == Pending && l.comment == None)
  {
    forall k | 0 <= k < |uploads|
      ensures var f := NewFileData(uploads, fileIds, lineSuffix)[k];
              && Map(f.lines, LineStore.LineContent) == Filter(Text.SplitLines(uploads[k].text), LineStore.IsNonBlank)
              && (forall l :: l in f.lines ==> l.status == Pending && l.comment == None)
    {
      LineStore.IngestContents(uploads[k].text, fileIds[k], SuffixOf(lineSuffix, k));
      LineStore.IngestFresh(uploads[k].text, fileIds[k], SuffixOf(lineSuffix, k));
    }
  }

  /**
   * The loop of handleFilesAdded over the uploaded files: the AuditFile
   * records of all uploads and, for the XML category, their FileData records.
   */
  method BuildUploads(category: Category, uploads: seq<Upload>, fileIds: seq<string>, lineSuffix: (nat, nat) -> string)
    returns (newFiles: seq<AuditFile>, newFileData: seq<FileData>)
    requires |fileIds| == |uploads|
    ensures newFiles == NewAuditFiles(uploads, fileIds)
    ensures newFileData == if category == Xmls then NewFileData(uploads, fileIds, lineSuffix) else []
  {
    newFiles := [];
    newFileData := [];
    var k := 0;
    while k < |uploads|
      invariant 0 <= k <= |uploads|
      invariant |newFiles| == k
      invariant forall j :: 0 <= j < k ==> newFiles[j] == AuditFile(fileIds[j], uploads[j].name, None)
      invariant newFileData == if category == Xmls then NewFileData(uploads[..k], fileIds[..k], lineSuffix) else []
    {
      var fileId := fileIds[k];
      newFiles := newFiles + [AuditFile(fileId, uploads[k].name, None)];
      if category == Xmls {
        BuiltDataSnoc(uploads, fileIds, Ingester(lineSuffix), k);
        newFileData := newFileData + [Ingester(lineSuffix)(k, fileId, uploads[k])];
      }
      k := k + 1;
    }
    assert uploads[..k] == uploads && fileIds[..k] == fileIds;
  }

  /**
   * The loop of handleFindXmlOperation over the files: the first file with a
   * matching line, and the first matching line in it; the loop breaks there.
   */
  method FindFirst(files: seq<FileData>, q: Resolver.FindQuery) returns (hit: Option<Resolver.Hit>)
    ensures hit == Resolver.Resolve(files, q)
  {
    hit := None;
    var i := 0;
    while i < |files|
      invariant 0 <= i <= |files|
      invariant Resolver.ResolveFrom(files, Resolver.Matcher(q), i) == Resolver.Resolve(files, q)
    {
      var targetIndex := Resolver.FirstLineMatch(files[i].lines, Resolver.Matcher(q));
      if targetIndex.Some? {
        hit := Some(Resolver.Hit(i, targetIndex.value));
        return;
      }
      i := i + 1;
    }
  }

  /**
   * The updates of handleFindXmlOperation once a line is found: the line is
   * marked reviewed and, when a movement id is given, that movement is
   * linked to it.
   */
  method ApplyFind(files: seq<FileData>, ms: seq<AuditMovement>, q: Resolver.FindQuery, movementId: Option<string>, hit: Resolver.Hit)
    returns (newFiles: seq<FileData>, newMovements: seq<AuditMovement>)
    requires Resolver.Resolve(files, q) == Some(hit)
    ensures newFiles == Resolver.FindFiles(files, q)
    ensures newMovements == Resolver.FindMovements(files, ms, q, movementId)
    ensures LineStore.SameShape(files, newFiles)
    ensures newFiles[hit.file].lines[hit.line].status == Reviewed
    ensures forall i, j :: 0 <= i < |files| && 0 <= j < |files[i].lines| && (files[i].id != files[hit.file].id || j != hit.line)
              ==> newFiles[i].lines[j].status == files[i].lines[j].status
    ensures !Truthy(movementId) ==> newMovements == ms
    ensures Truthy(movementId) ==>
              forall k :: 0 <= k < |ms| && ms[k].id == movementId.value ==>
                LinkGraph.HasXmlTarget(LinkGraph.XmlLinksOf(newMovements[k]), files[hit.file].id, files[hit.file].lines[hit.line].id)
    ensures forall k :: 0 <= k < |ms| && (!Truthy(movementId) || ms[k].id != movementId.value) ==> newMovements[k] == ms[k]
  {
    var file := files[hit.file];
    var targetLineId := file.lines[hit.line].id;
    newFiles := LineStore.MarkFound(files, file.id, hit.line);
    newMovements := if Truthy(movementId)
                    then LinkGraph.AddXmlLink(ms, movementId.value, file.id, targetLineId, file.name, LinkGraph.XmlLabel(file.name, hit.line))
                    else ms;
    LineStore.MarkFoundSpec(files, file.id, hit.line);
    if Truthy(movementId) {
      LinkGraph.AddXmlLinkSpec(ms, movementId.value, file.id, targetLineId, file.name, LinkGraph.XmlLabel(file.name, hit.line));
    }
  }

  /** How handleFindXmlOperation ends for a file list and a query. */
  function FindOutcomeOf(files: seq<FileData>, q: Resolver.FindQuery): (r: FindOutcome)
    ensures r == NoFiles <==> files == []
    ensures r.Found? <==> Resolver.Resolve(files, q).Some?
  {
    if files == [] then NoFiles
    else match Resolver.Resolve(files, q)
      case None => NotFound
      case Some(h) => Found(files[h.file].id, files[h.file].lines[h.line].id, PageOf(h.line))
  }

  /** The viewer after handleFindXmlOperation: on a find it shows the found line's file, page and line. */
  function FindView(v: ViewState, files: seq<FileData>, q: Resolver.FindQuery): (r: ViewState)
    ensures Resolver.Resolve(files, q).None? ==> r == v
    ensures Resolver.Resolve(files, q).Some? ==>
              var h := Resolver.Resolve(files, q).value;
              r.activeXmlFileId == Some(files[h.file].id)
              && r.highlightedLineId == Some(files[h.file].lines[h.line].id)
              && r.xmlCurrentPage >= 1
              && (r.xmlCurrentPage - 1) * ItemsPerPage <= h.line < r.xmlCurrentPage * ItemsPerPage
              && r.selectedDeclarationId == v.selectedDeclarationId && r.selectedXmlLines == v.selectedXmlLines
  {
    match Resolver.Resolve(files, q)
    case None => v
    case Some(h) =>
      v.(activeXmlFileId := Some(files[h.file].id), xmlCurrentPage := PageOf(h.line),
         highlightedLineId := Some(files[h.file].lines[h.line].id))
  }

  /** A category's registry after removal: `prev[category].filter(f => f.id !== fileId)`. */
  function WithoutAuditFile(files: seq<AuditFile>, fileId: string): (r: seq<AuditFile>)
    ensures forall f :: f in r <==> f in files && f.id != fileId
  {
    Filter(files, (f: AuditFile) => f.id != fileId)
  }

  /** The processed metadata after removing a declaration: `prev.filter(p => p.id !== fileId)`. */
  function WithoutProcessed(ps: seq<ProcessedDeclaration>, fileId: string): (r: seq<ProcessedDeclaration>)
    ensures forall p :: p in r <==> p in ps && p.id != fileId
  {
    Filter(ps, (p: ProcessedDeclaration) => p.id != fileId)
  }

  /**
   * Removing a file from a category's registry or from the processed metadata
   * keeps every other entry as often as it occurred and in its original order.
   */
  lemma RemovalKeepsOrder(files: seq<AuditFile>, ps: seq<ProcessedDeclaration>, fileId: string)
    ensures forall f :: multiset(WithoutAuditFile(files, fileId))[f] == if f.id != fileId then multiset(files)[f] else 0
    ensures forall k :: 0 <= k <= |files| ==>
              WithoutAuditFile(files, fileId) == WithoutAuditFile(files[..k], fileId) + WithoutAuditFile(files[k..], fileId)
    ensures forall p :: multiset(WithoutProcessed(ps, fileId))[p] == if p.id != fileId then multiset(ps)[p] else 0
    ensures forall k :: 0 <= k <= |ps| ==>
              WithoutProcessed(ps, fileId) == WithoutProcessed(ps[..k], fileId) + WithoutProcessed(ps[k..], fileId)
  {
    FilterMultiset(files, (f: AuditFile) => f.id != fileId);
    FilterSplit(files, (f: AuditFile) => f.id != fileId);
    FilterMultiset(ps, (p: ProcessedDeclaration) => p.id != fileId);
    FilterSplit(ps, (p: ProcessedDeclaration) => p.id != fileId);
  }

  /** `next.has(x) ? next.delete(x) : next.add(x)`. */
  function ToggleMember(s: set<string>, x: string): (r: set<string>)
    ensures x in r <==> x !in s
    ensures forall y :: y != x ==> (y in r <==> y in s)
  {
    if x in s then s - {x} else s + {x}
  }

  /** Toggling a selection twice restores it. */
  lemma ToggleMemberTwice(s: set<string>, x: string)
    ensures ToggleMember(ToggleMember(s, x), x) == s
  {
  }

  /**
   * The state of the App component. Its useState hooks are grouped in two
   * records: `saved` holds the hooks that the autosave writes and
   * loadProgressData restores, `view` the XML viewer and the declaration
   * selection.
   */
  class AuditSession {
    /** The signed-in user's name, or None when nobody is signed in. */
    var user: Option<string>
    var saved: Snapshot.Persisted
    var view: ViewState

    /** The initial component state. */
    constructor (user: Option<string>)
      ensures this.user == user
      ensures saved == Snapshot.InitialPersisted
      ensures view == ViewState(None, 1, None, None, {})
    {
      this.user := user;
      saved := Snapshot.Persisted(Snapshot.BlankDetails(Some("")), [], [], [], EmptyRegistry, PredefinedComments, []);
      view := ViewState(None, 1, None, None, {});
    }

    /**
     * handleFilesAdded: every upload is registered in its category under its
     * fresh id; XML uploads are also split into lines and appended to the
     * file data. The text of each file and the fresh ids are given.
     */
    method FilesAdded(category: Category, uploads: seq<Upload>, fileIds: seq<string>, lineSuffix: (nat, nat) -> string)
      requires |fileIds| == |uploads|
      modifies this
      ensures saved == old(saved).(
                auditFiles := old(saved.auditFiles).With(category, old(saved.auditFiles).Get(category) + NewAuditFiles(uploads, fileIds)),
                fileData := if category == Xmls then old(saved.fileData) + NewFileData(uploads, fileIds, lineSuffix) else old(saved.fileData))
      ensures user == old(user) && view == old(view)
    {
      var newFiles, newFileData := BuildUploads(category, uploads, fileIds, lineSuffix);
      var registry := saved.auditFiles;
      saved := saved.(auditFiles := registry.With(category, registry.Get(category) + newFiles),
                      fileData := if category == Xmls && |newFileData| > 0 then saved.fileData + newFileData else saved.fileData);
    }

    /**
     * handleRemoveFile, after the user's confirmation: the file leaves its
     * category; an XML file also leaves the file data and a declaration its
     * processed metadata, and a selection pointing at it is cleared.
     * Movements keep their links to the removed file.
     */
    method RemoveFile(category: Category, fileId: string, confirmed: bool)
      modifies this
      ensures saved == if !confirmed then old(saved) else old(saved).(
                auditFiles := old(saved.auditFiles).With(category, WithoutAuditFile(old(saved.auditFiles).Get(category), fileId)),
                fileData := if category == Xmls then LineStore.RemoveFile(old(saved.fileData), fileId) else old(saved.fileData),
                processedDeclarations := if category == Declaraciones then WithoutProcessed(old(saved.processedDeclarations), fileId)
                                         else old(saved.processedDeclarations))
      ensures view == if !confirmed then old(view) else old(view).(
                activeXmlFileId := if category == Xmls && old(view.activeXmlFileId) == Some(fileId) then None else old(view.activeXmlFileId),
                selectedDeclarationId := if category == Declaraciones && old(view.selectedDeclarationId) == Some(fileId) then None
                                         else old(view.selectedDeclarationId))
      ensures user == old(user)
    {
      if !confirmed {
        return;
      }
      var isXml := category == Xmls;
      var isDeclaration := category == Declaraciones;
      var s := saved;
      var v := view;
      saved := s.(auditFiles := s.auditFiles.With(category, WithoutAuditFile(s.auditFiles.Get(category), fileId)),
                  fileData := if isXml then LineStore.RemoveFile(s.fileData, fileId) else s.fileData,
                  processedDeclarations := if isDeclaration then WithoutProcessed(s.processedDeclarations, fileId) else s.processedDeclarations);
      view := v.(activeXmlFileId := if isXml && v.activeXmlFileId == Some(fileId) then None else v.activeXmlFileId,
                 selectedDeclarationId := if isDeclaration && v.selectedDeclarationId == Some(fileId) then None else v.selectedDeclarationId);
    }

    /** handleSaveCustomComment; a duplicate-free comment bank stays duplicate-free. */
    method SaveCustomComment(comment: string)
      modifies this
      ensures saved == old(saved).(customComments := Merges.AddCustomComment(old(saved.customComments), comment))
      ensures Merges.NoDuplicates(old(saved.customComments)) ==> Merges.NoDuplicates(saved.customComments)
      ensures user == old(user) && view == old(view)
    {
      Merges.AddCustomCommentSpec(saved.customComments, comment);
      if comment != "" && comment !in saved.customComments {
        saved := saved.(customComments := saved.customComments + [comment]);
      }
    }

    /** handleToggleLineStatus. */
    method ToggleLineStatus(fileId: string, lineId: string)
      modifies this
      ensures saved == old(saved).(fileData := LineStore.ToggleLineStatus(old(saved.fileData), fileId, lineId))
      ensures user == old(user) && view == old(view)
    {
      saved := saved.(fileData := LineStore.ToggleLineStatus(saved.fileData, fileId, lineId));
    }

    /**
     * handleFindXmlOperation: the scan stops at the first file with a
     * matching line; that line is marked reviewed, the viewer moves to its
     * file, page and line, and a given movement is linked to it.
     */
    method FindXmlOperation(q: Resolver.FindQuery, movementId: Option<string>) returns (outcome: FindOutcome)
      modifies this
      ensures outcome == FindOutcomeOf(old(saved.fileData), q)
      ensures view == FindView(old(view), old(saved.fileData), q)
      ensures saved == old(saved).(fileData := Resolver.FindFiles(old(saved.fileData), q),
                                   movements := Resolver.FindMovements(old(saved.fileData), old(saved.movements), q, movementId))
      ensures user == old(user)
    {
      var files := saved.fileData;
      if |files| == 0 {
        return NoFiles;
      }
      var hit := FindFirst(files, q);
      if hit.None? {
        return NotFound;
      }
      var file := files[hit.value.file];
      var idx := hit.value.line;
      var targetLineId := file.lines[idx].id;
      var newFiles, newMovements := ApplyFind(files, saved.movements, q, movementId, hit.value);
      view := view.(activeXmlFileId := Some(file.id), xmlCurrentPage := PageOf(idx), highlightedLineId := Some(targetLineId));
      saved := saved.(fileData := newFiles, movements := newMovements);
      outcome := Found(file.id, targetLineId, PageOf(idx));
    }

    /**
     * handleSaveComment, for the line of the open comment dialog: the line
     * of the active file gets the comment and becomes reviewed, every movement
     * linked to that line gets the comment appended to its operations, and
     * the comment is added to the bank on request.
     */
    method SaveComment(dialogLineId: Option<string>, comment: string, saveForFuture: bool)
      modifies this
      ensures saved == if !(Truthy(dialogLineId) && Truthy(view.activeXmlFileId)) then old(saved) else old(saved).(
                fileData := LineStore.SetComment(old(saved.fileData), view.activeXmlFileId.value, dialogLineId.value, comment),
                movements := LinkGraph.SyncXmlComment(old(saved.movements), dialogLineId.value, comment),
                customComments := if saveForFuture then Merges.AddCustomComment(old(saved.customComments), comment)
                                  else old(saved.customComments))
      ensures user == old(user) && view == old(view)
    {
      if !Truthy(dialogLineId) || !Truthy(view.activeXmlFileId) {
        return;
      }
      var lineId := dialogLineId.value;
      var s := saved;
      saved := s.(fileData := LineStore.SetComment(s.fileData, view.activeXmlFileId.value, lineId, comment),
                  movements := LinkGraph.SyncXmlComment(s.movements, lineId, comment));
      if saveForFuture {
        SaveCustomComment(comment);
      }
    }

    /** handleDeleteComment, for the line of the open comment dialog in the active file. */
    method DeleteComment(dialogLineId: Option<string>)
      modifies this
      ensures saved == if !(Truthy(dialogLineId) && Truthy(view.activeXmlFileId)) then old(saved)
                       else old(saved).(fileData := LineStore.DeleteComment(old(saved.fileData), view.activeXmlFileId.value, dialogLineId.value))
      ensures user == old(user) && view == old(view)
    {
      if Truthy(dialogLineId) && Truthy(view.activeXmlFileId) {
        saved := saved.(fileData := LineStore.DeleteComment(saved.fileData, view.activeXmlFileId.value, dialogLineId.value));
      }
    }

    /** handleUpdateLineContent, on the active file. */
    method UpdateLineContent(lineId: string, content: string)
      modifies this
      ensures saved == if !Truthy(view.activeXmlFileId) then old(saved)
                       else old(saved).(fileData := LineStore.UpdateLineContent(old(saved.fileData), view.activeXmlFileId.value, lineId, content))
      ensures user == old(user) && view == old(view)
    {
      if Truthy(view.activeXmlFileId) {
        saved := saved.(fileData := LineStore.UpdateLineContent(saved.fileData, view.activeXmlFileId.value, lineId, content));
      }
    }

    /** handleToggleXmlSelection. */
    method ToggleXmlSelection(lineId: string)
      modifies this
      ensures view == old(view).(selectedXmlLines := ToggleMember(old(view.selectedXmlLines), lineId))
      ensures user == old(user) && saved == old(saved)
    {
      var lines := view.selectedXmlLines;
      if lineId in lines {
        lines := lines - {lineId};
      } else {
        lines := lines + {lineId};
      }
      view := view.(selectedXmlLines := lines);
    }

    /** onAddDeclarationLink. */
    method AddDeclarationLink(movementId: string, fileName: string)
      modifies this
      ensures saved == old(saved).(movements := LinkGraph.AddDeclarationLink(old(saved.movements), movementId, fileName))
      ensures user == old(user) && view == old(view)
    {
      saved := saved.(movements := LinkGraph.AddDeclarationLink(saved.movements, movementId, fileName));
    }

    /** onRemoveDeclarationLink. */
    method RemoveDeclarationLink(movementId: string, fileName: string)
      modifies this
      ensures saved == old(saved).(movements := LinkGraph.RemoveDeclarationLink(old(saved.movements), movementId, fileName))
      ensures user == old(user) && view == old(view)
    {
      saved := saved.(movements := LinkGraph.RemoveDeclarationLink(saved.movements, movementId, fileName));
    }

    /**
     * onUpdateReview: the review list is copied and the file's review
     * replaced in place, or the review appended; the auditor's comments are
     * then synced to the linked movements when the declaration was processed.
     * One review per file is preserved.
     */
    method UpdateReview(updated: DeclarationReview)
      modifies this
      ensures saved == old(saved).(
                reviews := Merges.UpsertReview(old(saved.reviews), updated),
                movements := Merges.ReviewMovements(old(saved.movements), old(saved.processedDeclarations), updated))
      ensures Merges.UniqueReviewFiles(old(saved.reviews)) ==> Merges.UniqueReviewFiles(saved.reviews)
      ensures user == old(user) && view == old(view)
    {
      var s := saved;
      Merges.UpsertReviewSpec(s.reviews, updated);
      var idx := Merges.FindReview(s.reviews, updated.fileId);
      var next := s.reviews;
      if idx.Some? {
        next := next[idx.value := updated];
      } else {
        next := next + [updated];
      }
      saved := s.(reviews := next, movements := Merges.ReviewMovements(s.movements, s.processedDeclarations, updated));
    }

    /** The merge of processNewDeclarations, given the extracted metadata. */
    method MergeProcessedDeclarations(results: seq<ProcessedDeclaration>)
      modifies this
      ensures saved == old(saved).(processedDeclarations := Merges.MergeProcessed(old(saved.processedDeclarations), results))
      ensures user == old(user) && view == old(view)
    {
      saved := saved.(processedDeclarations := Merges.MergeProcessed(saved.processedDeclarations, results));
    }

    /** loadProgressData, with the storage service's registry rebuild given as `reconstruct`. */
    method LoadProgress(data: Snapshot.ProgressData, reconstruct: AuditFileCategory -> AuditFileCategory)
      modifies this
      ensures saved == Snapshot.Load(data, old(saved), reconstruct)
      ensures user == old(user) && view == old(view)
    {
      var s := saved;
      saved := Snapshot.Persisted(
        data.auditDetails.GetOr(s.auditDetails),
        data.fileData.GetOr([]),
        data.chronologicalMovements.GetOr([]),
        data.declarationReviews.GetOr([]),
        reconstruct(data.auditFiles),
        data.customComments.GetOr(s.customComments),
        data.processedDeclarations.GetOr(s.processedDeclarations));
    }

    /** handleDiscardSession: without a signed-in user nothing happens. */
    method DiscardSession()
      modifies this
      ensures saved == if old(user).None? then old(saved) else Snapshot.Discarded(old(user).value)
      ensures user == old(user) && view == old(view)
    {
      if user.None? {
        return;
      }
      var name := user.value;
      saved := Snapshot.Persisted(Snapshot.BlankDetails(Some(name)), [], [], [], EmptyRegistry, PredefinedComments, []);
    }

    /** handleLogout: nobody is signed in and the saved state is back to the initial one. */
    method Logout()
      modifies this
      ensures user == None && saved == Snapshot.InitialPersisted && view == old(view)
    {
      user := None;
      saved := Snapshot.Persisted(Snapshot.BlankDetails(Some("")), [], [], [], EmptyRegistry, PredefinedComments, []);
    }

    /** The record the autosave timer writes, or None when nobody is signed in. */
    function AutosaveRecord(): (r: Option<Snapshot.ProgressData>)
      reads this
      ensures r.Some? <==> user.Some?
      ensures r.Some? ==> Snapshot.Load(r.value, Snapshot.InitialPersisted, (a: AuditFileCategory) => a).fileData == saved.fileData
    {
      if user.None? then None else Some(Snapshot.AutosaveSnapshot(saved, user.value))
    }
  }
}
