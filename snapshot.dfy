/**
 * The persisted part of a session and the conversions between it and the
 * progress file (ProgressData): snapshot assembly for autosave and download,
 * the defaults applied when loading, and the state after discarding a session.
 */
module Snapshot {
  import opened Wrappers
  import opened Types

  /** The fields of the session that are saved and restored. */
  datatype Persisted = Persisted(
    auditDetails: AuditDetails,
    fileData: seq<FileData>,
    movements: seq<AuditMovement>,
    reviews: seq<DeclarationReview>,
    auditFiles: AuditFileCategory,
    customComments: seq<string>,
    processedDeclarations: seq<ProcessedDeclaration>)

  /**
   * A progress file as it is read back: any field may be missing. The
   * serialized registry is the registry itself; its (de)serialization lives
   * in the storage service.
   */
  datatype ProgressData = ProgressData(
    version: int,
    auditDetails: Option<AuditDetails>,
    auditFiles: AuditFileCategory,
    fileData: Option<seq<FileData>>,
    customComments: Option<seq<string>>,
    chronologicalMovements: Option<seq<AuditMovement>>,
    declarationReviews: Option<seq<DeclarationReview>>,
    processedDeclarations: Option<seq<ProcessedDeclaration>>)

  /** The header of a new or cleared session. */
  function BlankDetails(auditorName: Option<string>): AuditDetails
  {
    AuditDetails("", "", "", "", auditorName)
  }

  /** The persisted part of a session before anything is loaded. */
  const InitialPersisted: Persisted :=
    Persisted(BlankDetails(Some("")), [], [], [], EmptyRegistry, PredefinedComments, [])

  /** handleDownloadProgress' record: version 1 with every field present. */
  function SnapshotOf(s: Persisted): (d: ProgressData)
    ensures d.version == 1
  {
    ProgressData(1, Some(s.auditDetails), s.auditFiles, Some(s.fileData), Some(s.customComments),
                 Some(s.movements), Some(s.reviews), Some(s.processedDeclarations))
  }

  /** The autosave header: `auditorName || user.username`. */
  function AutosaveDetails(d: AuditDetails, username: string): AuditDetails
  {
    d.(auditorName := if Truthy(d.auditorName) then d.auditorName else Some(username))
  }

  /** The autosave record: the snapshot with the auditor defaulted to the user. */
  function AutosaveSnapshot(s: Persisted, username: string): ProgressData
  {
    SnapshotOf(s.(auditDetails := AutosaveDetails(s.auditDetails, username)))
  }

  /**
   * loadProgressData: the details, processed declarations and comment bank are
   * replaced only when present; file data, movements and reviews default to
   * empty; the registry is rebuilt by `reconstruct`. The version is not read.
   */
  function Load(data: ProgressData, current: Persisted, reconstruct: AuditFileCategory -> AuditFileCategory): Persisted
  {
    Persisted(
      data.auditDetails.GetOr(current.auditDetails),
      data.fileData.GetOr([]),
      data.chronologicalMovements.GetOr([]),
      data.declarationReviews.GetOr([]),
      reconstruct(data.auditFiles),
      data.customComments.GetOr(current.customComments),
      data.processedDeclarations.GetOr(current.processedDeclarations))
  }

  /** handleDiscardSession's reset: empty lists, the predefined comments, the user as auditor. */
  function Discarded(username: string): Persisted
  {
    Persisted(BlankDetails(Some(username)), [], [], [], EmptyRegistry, PredefinedComments, [])
  }

  /** Loading a saved snapshot restores the saved session, whatever the current one is. */
  lemma LoadSnapshot(s: Persisted, current: Persisted, reconstruct: AuditFileCategory -> AuditFileCategory)
    ensures Load(SnapshotOf(s), current, reconstruct) == s.(auditFiles := reconstruct(s.auditFiles))
    ensures reconstruct(s.auditFiles) == s.auditFiles ==> Load(SnapshotOf(s), current, reconstruct) == s
  {
  }

  /**
   * Each field of a loaded file is taken when present; when missing, file
   * data, movements and reviews become empty while the details, the comment
   * bank and the processed declarations keep their current value.
   */
  lemma LoadDefaults(data: ProgressData, current: Persisted, reconstruct: AuditFileCategory -> AuditFileCategory)
    ensures var s := Load(data, current, reconstruct);
            && (data.auditDetails.None? ==> s.auditDetails == current.auditDetails)
            && (data.auditDetails.Some? ==> s.auditDetails == data.auditDetails.value)
            && (data.fileData.None? ==> s.fileData == [])
            && (data.chronologicalMovements.None? ==> s.movements == [])
            && (data.declarationReviews.None? ==> s.reviews == [])
            && (data.customComments.None? ==> s.customComments == current.customComments)
            && (data.processedDeclarations.None? ==> s.processedDeclarations == current.processedDeclarations)
            && s.auditFiles == reconstruct(data.auditFiles)
    ensures data.fileData.Some? && data.chronologicalMovements.Some? && data.declarationReviews.Some? ==>
              var s := Load(data, current, reconstruct);
              s.fileData == data.fileData.value && s.movements == data.chronologicalMovements.value
              && s.reviews == data.declarationReviews.value
    ensures forall v :: Load(data.(version := v), current, reconstruct) == Load(data, current, reconstruct)
  {
  }

  /**
   * The autosave record always names an auditor when the user has a name: the
   * one already set when it is non-empty, the user otherwise; every other
   * field is the session's own.
   */
  lemma AutosaveNamesAuditor(s: Persisted, username: string)
    ensures var d := AutosaveSnapshot(s, username);
            && d.version == 1
            && d.auditDetails.Some?
            && (Truthy(s.auditDetails.auditorName) ==> d.auditDetails.value == s.auditDetails)
            && (!Truthy(s.auditDetails.auditorName) ==> d.auditDetails.value.auditorName == Some(username))
            && d.auditDetails.value.companyName == s.auditDetails.companyName
            && d.auditDetails.value.nit == s.auditDetails.nit
            && (username != "" ==> Truthy(d.auditDetails.value.auditorName))
            && d.fileData == Some(s.fileData) && d.chronologicalMovements == Some(s.movements)
            && d.declarationReviews == Some(s.reviews) && d.customComments == Some(s.customComments)
            && d.processedDeclarations == Some(s.processedDeclarations) && d.auditFiles == s.auditFiles
  {
  }

  /** Discarding clears all work, restores the predefined comment bank and makes the user the auditor. */
  lemma DiscardedSpec(username: string)
    ensures var s := Discarded(username);
            && s.fileData == [] && s.movements == [] && s.reviews == [] && s.processedDeclarations == []
            && s.auditFiles == EmptyRegistry
            && (forall c :: s.auditFiles.Get(c) == [])
            && s.customComments == PredefinedComments
            && s.auditDetails.auditorName == Some(username)
            && s.auditDetails.companyName == "" && s.auditDetails.nit == ""
            && s.auditDetails.startDate == "" && s.auditDetails.endDate == ""
    ensures Discarded(username) == InitialPersisted.(auditDetails := BlankDetails(Some(username)))
  {
    forall c ensures Discarded(username).auditFiles.Get(c) == [] {
    }
  }
}
