/**
 * The links from ledger movements to XML lines and to declaration files, and
 * the propagation of review comments along them (App.tsx).
 */
module LinkGraph {
  import opened Wrappers
  import opened Seqs
  import opened Text
  import opened Types

  /** `m.linkedXmls || []`. */
  function XmlLinksOf(m: AuditMovement): seq<SmartLink>
  {
    m.linkedXmls.GetOr([])
  }

  /** `m.linkedDeclarations || []`. */
  function DeclarationLinksOf(m: AuditMovement): seq<SmartLink>
  {
    m.linkedDeclarations.GetOr([])
  }

  predicate SameXmlTarget(l: SmartLink, fileId: string, lineId: string)
  {
    l.targetFileId == Some(fileId) && l.targetLineId == Some(lineId)
  }

  predicate HasXmlTarget(links: seq<SmartLink>, fileId: string, lineId: string)
  {
    exists k :: 0 <= k < |links| && SameXmlTarget(links[k], fileId, lineId)
  }

  /** Number of links in `links` that point at the given XML line. */
  function CountXmlTarget(links: seq<SmartLink>, fileId: string, lineId: string): nat
  {
    if links == [] then 0
    else (if SameXmlTarget(links[0], fileId, lineId) then 1 else 0) + CountXmlTarget(links[1..], fileId, lineId)
  }

  /** No two links of the list share a (targetFileId, targetLineId) pair. */
  predicate XmlLinksUnique(links: seq<SmartLink>)
  {
    forall a, b :: 0 <= a < b < |links| ==>
      !(links[a].targetFileId == links[b].targetFileId && links[a].targetLineId == links[b].targetLineId)
  }

  /** The label of a link to line `index` (0-based) of a file: `XML: name (Línea n)`. */
  function XmlLabel(fileName: string, index: nat): string
  {
    "XML: " + fileName + " (Línea " + NatToString(index + 1) + ")"
  }

  function NewXmlLink(fileId: string, lineId: string, fileName: string, labelText: string): SmartLink
  {
    SmartLink(XmlLink, labelText, Some(fileId), Some(lineId), fileName)
  }

  /** The movement update of handleFindXmlOperation: append the link unless one to that line exists. */
  function AddXmlLinkTo(m: AuditMovement, fileId: string, lineId: string, fileName: string, labelText: string): AuditMovement
  {
    if HasXmlTarget(XmlLinksOf(m), fileId, lineId) then m
    else m.(linkedXmls := Some(XmlLinksOf(m) + [NewXmlLink(fileId, lineId, fileName, labelText)]))
  }

  function AddXmlLink(ms: seq<AuditMovement>, movementId: string, fileId: string, lineId: string,
                      fileName: string, labelText: string): (r: seq<AuditMovement>)
    ensures |r| == |ms|
  {
    seq(|ms|, k requires 0 <= k < |ms| =>
      if ms[k].id == movementId then AddXmlLinkTo(ms[k], fileId, lineId, fileName, labelText) else ms[k])
  }

  lemma {:induction false} CountXmlTargetZero(links: seq<SmartLink>, fileId: string, lineId: string)
    ensures CountXmlTarget(links, fileId, lineId) == 0 <==> !HasXmlTarget(links, fileId, lineId)
  {
    if links != [] {
      CountXmlTargetZero(links[1..], fileId, lineId);
      if HasXmlTarget(links, fileId, lineId) && !SameXmlTarget(links[0], fileId, lineId) {
        var k :| 0 <= k < |links| && SameXmlTarget(links[k], fileId, lineId);
        assert links[1..][k - 1] == links[k];
      }
      if HasXmlTarget(links[1..], fileId, lineId) {
        var k :| 0 <= k < |links[1..]| && SameXmlTarget(links[1..][k], fileId, lineId);
        assert links[k + 1] == links[1..][k];
      }
    }
  }

  lemma {:induction false} CountXmlTargetAppend(a: seq<SmartLink>, b: seq<SmartLink>, fileId: string, lineId: string)
    ensures CountXmlTarget(a + b, fileId, lineId) == CountXmlTarget(a, fileId, lineId) + CountXmlTarget(b, fileId, lineId)
  {
    if a == [] {
      assert a + b == b;
    } else {
      assert (a + b)[1..] == a[1..] + b;
      CountXmlTargetAppend(a[1..], b, fileId, lineId);
    }
  }

  /**
   * Linking a movement to an XML line: only the movement with that id changes;
   * it ends up with the link, its earlier links are kept in front, and the line
   * is linked exactly once when it was linked at most once before.
   */
  lemma {:induction false} AddXmlLinkSpec(ms: seq<AuditMovement>, movementId: string, fileId: string, lineId: string,
                                          fileName: string, labelText: string)
    ensures forall k :: 0 <= k < |ms| && ms[k].id != movementId ==>
              AddXmlLink(ms, movementId, fileId, lineId, fileName, labelText)[k] == ms[k]
    ensures forall k :: 0 <= k < |ms| && ms[k].id == movementId ==>
              var m := AddXmlLink(ms, movementId, fileId, lineId, fileName, labelText)[k];
              && m == ms[k].(linkedXmls := m.linkedXmls)
              && (HasXmlTarget(XmlLinksOf(ms[k]), fileId, lineId) ==> m == ms[k])
              && (!HasXmlTarget(XmlLinksOf(ms[k]), fileId, lineId) ==>
                    m.linkedXmls == Some(XmlLinksOf(ms[k]) + [NewXmlLink(fileId, lineId, fileName, labelText)]))
              && HasXmlTarget(XmlLinksOf(m), fileId, lineId)
              && XmlLinksOf(ms[k]) <= XmlLinksOf(m)
              && CountXmlTarget(XmlLinksOf(m), fileId, lineId)
                 == if HasXmlTarget(XmlLinksOf(ms[k]), fileId, lineId) then CountXmlTarget(XmlLinksOf(ms[k]), fileId, lineId) else 1
  {
    var r := AddXmlLink(ms, movementId, fileId, lineId, fileName, labelText);
    forall k | 0 <= k < |ms| && ms[k].id == movementId
      ensures HasXmlTarget(XmlLinksOf(r[k]), fileId, lineId)
      ensures CountXmlTarget(XmlLinksOf(r[k]), fileId, lineId)
              == if HasXmlTarget(XmlLinksOf(ms[k]), fileId, lineId) then CountXmlTarget(XmlLinksOf(ms[k]), fileId, lineId) else 1
    {
      var old_ := XmlLinksOf(ms[k]);
      var link := NewXmlLink(fileId, lineId, fileName, labelText);
      if !HasXmlTarget(old_, fileId, lineId) {
        assert XmlLinksOf(r[k]) == old_ + [link];
        assert (old_ + [link])[|old_|] == link;
        CountXmlTargetZero(old_, fileId, lineId);
        CountXmlTargetAppend(old_, [link], fileId, lineId);
        assert CountXmlTarget([link], fileId, lineId) == 1;
      }
    }
  }

  /** A second identical link request changes nothing. */
  lemma {:induction false} AddXmlLinkIdempotent(ms: seq<AuditMovement>, movementId: string, fileId: string, lineId: string,
                                                fileName: string, labelText: string)
    ensures var once := AddXmlLink(ms, movementId, fileId, lineId, fileName, labelText);
            AddXmlLink(once, movementId, fileId, lineId, fileName, labelText) == once
  {
    var once := AddXmlLink(ms, movementId, fileId, lineId, fileName, labelText);
    AddXmlLinkSpec(ms, movementId, fileId, lineId, fileName, labelText);
    var twice := AddXmlLink(once, movementId, fileId, lineId, fileName, labelText);
    forall k | 0 <= k < |ms| ensures twice[k] == once[k] {
    }
  }

  /** Adding an XML link keeps every movement's XML links free of duplicate targets. */
  lemma {:induction false} AddXmlLinkKeepsUnique(ms: seq<AuditMovement>, movementId: string, fileId: string, lineId: string,
                                                 fileName: string, labelText: string)
    requires forall k :: 0 <= k < |ms| ==> XmlLinksUnique(XmlLinksOf(ms[k]))
    ensures var r := AddXmlLink(ms, movementId, fileId, lineId, fileName, labelText);
            forall k :: 0 <= k < |r| ==> XmlLinksUnique(XmlLinksOf(r[k]))
  {
    var r := AddXmlLink(ms, movementId, fileId, lineId, fileName, labelText);
    forall k | 0 <= k < |r| ensures XmlLinksUnique(XmlLinksOf(r[k])) {
      if ms[k].id == movementId && !HasXmlTarget(XmlLinksOf(ms[k]), fileId, lineId) {
        var old_ := XmlLinksOf(ms[k]);
        var links := XmlLinksOf(r[k]);
        assert links == old_ + [NewXmlLink(fileId, lineId, fileName, labelText)];
        forall a, b | 0 <= a < b < |links|
          ensures !(links[a].targetFileId == links[b].targetFileId && links[a].targetLineId == links[b].targetLineId)
        {
          if b == |old_| {
            assert links[a] == old_[a];
            assert !SameXmlTarget(old_[a], fileId, lineId);
          }
        }
      }
    }
  }

  predicate HasDeclarationName(links: seq<SmartLink>, fileName: string)
  {
    exists k :: 0 <= k < |links| && links[k].targetFileName == fileName
  }

  /** No two links of the list share a targetFileName. */
  predicate DeclarationLinksUnique(links: seq<SmartLink>)
  {
    forall a, b :: 0 <= a < b < |links| ==> links[a].targetFileName != links[b].targetFileName
  }

  /** onAddDeclarationLink on one movement: append a pdf link unless one to that file name exists. */
  function AddDeclarationLinkTo(m: AuditMovement, fileName: string): AuditMovement
  {
    var links := DeclarationLinksOf(m);
    m.(linkedDeclarations := Some(
      if HasDeclarationName(links, fileName) then links
      else links + [SmartLink(PdfLink, fileName, None, None, fileName)]))
  }

  function AddDeclarationLink(ms: seq<AuditMovement>, movementId: string, fileName: string): (r: seq<AuditMovement>)
    ensures |r| == |ms|
  {
    seq(|ms|, k requires 0 <= k < |ms| =>
      if ms[k].id == movementId then AddDeclarationLinkTo(ms[k], fileName) else ms[k])
  }

  /** onRemoveDeclarationLink on one movement: keep the links to other file names (`?.filter`). */
  function RemoveDeclarationLinkFrom(m: AuditMovement, fileName: string): AuditMovement
  {
    match m.linkedDeclarations
    case None => m
    case Some(links) => m.(linkedDeclarations := Some(Filter(links, (l: SmartLink) => l.targetFileName != fileName)))
  }

  function RemoveDeclarationLink(ms: seq<AuditMovement>, movementId: string, fileName: string): (r: seq<AuditMovement>)
    ensures |r| == |ms|
  {
    seq(|ms|, k requires 0 <= k < |ms| =>
      if ms[k].id == movementId then RemoveDeclarationLinkFrom(ms[k], fileName) else ms[k])
  }

  /**
   * Linking a declaration: only the movement with that id changes; it ends up
   * with a link to the file name, its earlier links are kept in front, and at
   * most one link is added.
   */
  lemma AddDeclarationLinkSpec(ms: seq<AuditMovement>, movementId: string, fileName: string)
    ensures forall k :: 0 <= k < |ms| && ms[k].id != movementId ==> AddDeclarationLink(ms, movementId, fileName)[k] == ms[k]
    ensures forall k :: 0 <= k < |ms| && ms[k].id == movementId ==>
              var m := AddDeclarationLink(ms, movementId, fileName)[k];
              && m == ms[k].(linkedDeclarations := m.linkedDeclarations)
              && m.linkedDeclarations == Some(
                   if HasDeclarationName(DeclarationLinksOf(ms[k]), fileName) then DeclarationLinksOf(ms[k])
                   else DeclarationLinksOf(ms[k]) + [SmartLink(PdfLink, fileName, None, None, fileName)])
              && HasDeclarationName(DeclarationLinksOf(m), fileName)
              && DeclarationLinksOf(ms[k]) <= DeclarationLinksOf(m)
              && |DeclarationLinksOf(m)| == |DeclarationLinksOf(ms[k])| + (if HasDeclarationName(DeclarationLinksOf(ms[k]), fileName) then 0 else 1)
  {
    forall k | 0 <= k < |ms| && ms[k].id == movementId
      ensures HasDeclarationName(DeclarationLinksOf(AddDeclarationLink(ms, movementId, fileName)[k]), fileName)
    {
      var links := DeclarationLinksOf(ms[k]);
      if !HasDeclarationName(links, fileName) {
        var added := links + [SmartLink(PdfLink, fileName, None, None, fileName)];
        assert added[|links|].targetFileName == fileName;
      }
    }
  }

  /** A second identical declaration link request changes nothing. */
  lemma {:induction false} AddDeclarationLinkIdempotent(ms: seq<AuditMovement>, movementId: string, fileName: string)
    ensures var once := AddDeclarationLink(ms, movementId, fileName);
            AddDeclarationLink(once, movementId, fileName) == once
  {
    var once := AddDeclarationLink(ms, movementId, fileName);
    AddDeclarationLinkSpec(ms, movementId, fileName);
    var twice := AddDeclarationLink(once, movementId, fileName);
    forall k | 0 <= k < |ms| ensures twice[k] == once[k] {
    }
  }

  /** Adding a declaration link keeps every movement free of two links to one file name. */
  lemma {:induction false} AddDeclarationLinkKeepsUnique(ms: seq<AuditMovement>, movementId: string, fileName: string)
    requires forall k :: 0 <= k < |ms| ==> DeclarationLinksUnique(DeclarationLinksOf(ms[k]))
    ensures var r := AddDeclarationLink(ms, movementId, fileName);
            forall k :: 0 <= k < |r| ==> DeclarationLinksUnique(DeclarationLinksOf(r[k]))
  {
    var r := AddDeclarationLink(ms, movementId, fileName);
    forall k | 0 <= k < |r| ensures DeclarationLinksUnique(DeclarationLinksOf(r[k])) {
      if ms[k].id == movementId && !HasDeclarationName(DeclarationLinksOf(ms[k]), fileName) {
        var old_ := DeclarationLinksOf(ms[k]);
        var links := DeclarationLinksOf(r[k]);
        assert links == old_ + [SmartLink(PdfLink, fileName, None, None, fileName)];
        forall a, b | 0 <= a < b < |links| ensures links[a].targetFileName != links[b].targetFileName {
          if b == |old_| {
            assert links[a] == old_[a];
          }
        }
      }
    }
  }

  /**
   * Unlinking a declaration removes exactly the links with that file name from
   * that movement, keeping the others; every other movement is untouched.
   */
  lemma RemoveDeclarationLinkSpec(ms: seq<AuditMovement>, movementId: string, fileName: string)
    ensures forall k :: 0 <= k < |ms| && ms[k].id != movementId ==> RemoveDeclarationLink(ms, movementId, fileName)[k] == ms[k]
    ensures forall k :: 0 <= k < |ms| && ms[k].id == movementId ==>
              var m := RemoveDeclarationLink(ms, movementId, fileName)[k];
              && m == ms[k].(linkedDeclarations := m.linkedDeclarations)
              && (ms[k].linkedDeclarations.None? ==> m == ms[k])
              && DeclarationLinksOf(m) == Filter(DeclarationLinksOf(ms[k]), (l: SmartLink) => l.targetFileName != fileName)
              && !HasDeclarationName(DeclarationLinksOf(m), fileName)
              && (forall l :: l in DeclarationLinksOf(m) <==> l in DeclarationLinksOf(ms[k]) && l.targetFileName != fileName)
  {
    forall k | 0 <= k < |ms| && ms[k].id == movementId
      ensures var m := RemoveDeclarationLink(ms, movementId, fileName)[k];
              DeclarationLinksOf(m) == Filter(DeclarationLinksOf(ms[k]), (l: SmartLink) => l.targetFileName != fileName)
              && !HasDeclarationName(DeclarationLinksOf(m), fileName)
    {
      var m := RemoveDeclarationLink(ms, movementId, fileName)[k];
      var kept := DeclarationLinksOf(m);
      forall j | 0 <= j < |kept| ensures kept[j].targetFileName != fileName {
        assert kept[j] in kept;
      }
    }
  }

  /** A movement is linked to an XML line when one of its XML links targets that line id. */
  predicate LinkedToLine(m: AuditMovement, lineId: string)
  {
    exists k :: 0 <= k < |XmlLinksOf(m)| && XmlLinksOf(m)[k].targetLineId == Some(lineId)
  }

  /** A movement is linked to a declaration when one of its declaration links targets that file name. */
  predicate LinkedToDeclaration(m: AuditMovement, fileName: string)
  {
    HasDeclarationName(DeclarationLinksOf(m), fileName)
  }

  /** The comment an operation gets when a linked XML line is commented. */
  function AppendXmlComment(existing: string, comment: string): (r: string)
  {
    if existing == "" then "[XML]: " + comment else existing + "\n[XML]: " + comment
  }

  /** The appended form never loses the earlier text and always ends with the tagged new comment. */
  lemma AppendXmlCommentSpec(existing: string, comment: string)
    ensures existing <= AppendXmlComment(existing, comment)
    ensures var tail := "[XML]: " + comment;
            var r := AppendXmlComment(existing, comment);
            |tail| <= |r| && r[|r| - |tail|..] == tail
    ensures existing == "" ==> AppendXmlComment(existing, comment) == "[XML]: " + comment
    ensures existing != "" ==> AppendXmlComment(existing, comment) == existing + "\n" + "[XML]: " + comment
  {
    var tail := "[XML]: " + comment;
    var r := AppendXmlComment(existing, comment);
    if existing != "" {
      assert r == (existing + "\n") + tail;
    }
  }

  function WithComments(op: AuditOperation, comments: string): AuditOperation
  {
    op.(reviewData := op.reviewData.(comments := comments))
  }

  function AppendToOperations(m: AuditMovement, comment: string): (r: AuditMovement)
    ensures |r.operations| == |m.operations|
  {
    m.(operations := seq(|m.operations|, j requires 0 <= j < |m.operations| =>
      WithComments(m.operations[j], AppendXmlComment(m.operations[j].reviewData.comments, comment))))
  }

  function OverwriteOperations(m: AuditMovement, comments: string): (r: AuditMovement)
    ensures |r.operations| == |m.operations|
  {
    m.(operations := seq(|m.operations|, j requires 0 <= j < |m.operations| => WithComments(m.operations[j], comments)))
  }

  /** The movement sync of handleSaveComment: linked movements get the comment appended to every operation. */
  function SyncXmlComment(ms: seq<AuditMovement>, lineId: string, comment: string): (r: seq<AuditMovement>)
    ensures |r| == |ms|
  {
    seq(|ms|, k requires 0 <= k < |ms| =>
      if LinkedToLine(ms[k], lineId) then AppendToOperations(ms[k], comment) else ms[k])
  }

  /** The movement sync of onUpdateReview: linked movements get every operation's comment overwritten. */
  function SyncDeclarationComment(ms: seq<AuditMovement>, fileName: string, comments: string): (r: seq<AuditMovement>)
    ensures |r| == |ms|
  {
    seq(|ms|, k requires 0 <= k < |ms| =>
      if LinkedToDeclaration(ms[k], fileName) then OverwriteOperations(ms[k], comments) else ms[k])
  }

  /**
   * Commenting an XML line appends the tagged comment to every operation of
   * every movement linked to that line; the operations keep their ids, amounts
   * and review areas, and unlinked movements are untouched.
   */
  lemma SyncXmlCommentSpec(ms: seq<AuditMovement>, lineId: string, comment: string)
    ensures forall k :: 0 <= k < |ms| && !LinkedToLine(ms[k], lineId) ==> SyncXmlComment(ms, lineId, comment)[k] == ms[k]
    ensures forall k, j :: 0 <= k < |ms| && LinkedToLine(ms[k], lineId) && 0 <= j < |ms[k].operations| ==>
              var before := ms[k].operations[j];
              var after := SyncXmlComment(ms, lineId, comment)[k].operations[j];
              && after == before.(reviewData := before.reviewData.(comments := after.reviewData.comments))
              && before.reviewData.comments <= after.reviewData.comments
              && after.reviewData.comments == AppendXmlComment(before.reviewData.comments, comment)
    ensures forall k :: 0 <= k < |ms| ==>
              var m := SyncXmlComment(ms, lineId, comment)[k];
              m == ms[k].(operations := m.operations) && |m.operations| == |ms[k].operations|
  {
    forall k, j | 0 <= k < |ms| && LinkedToLine(ms[k], lineId) && 0 <= j < |ms[k].operations|
      ensures ms[k].operations[j].reviewData.comments <= SyncXmlComment(ms, lineId, comment)[k].operations[j].reviewData.comments
    {
      AppendXmlCommentSpec(ms[k].operations[j].reviewData.comments, comment);
    }
  }

  /**
   * Updating a declaration review overwrites the comment of every operation of
   * every movement linked to that file name; everything else is untouched.
   */
  lemma SyncDeclarationCommentSpec(ms: seq<AuditMovement>, fileName: string, comments: string)
    ensures forall k :: 0 <= k < |ms| && !LinkedToDeclaration(ms[k], fileName) ==>
              SyncDeclarationComment(ms, fileName, comments)[k] == ms[k]
    ensures forall k, j :: 0 <= k < |ms| && LinkedToDeclaration(ms[k], fileName) && 0 <= j < |ms[k].operations| ==>
              SyncDeclarationComment(ms, fileName, comments)[k].operations[j]
              == ms[k].operations[j].(reviewData := ms[k].operations[j].reviewData.(comments := comments))
    ensures forall k :: 0 <= k < |ms| ==>
              var m := SyncDeclarationComment(ms, fileName, comments)[k];
              m == ms[k].(operations := m.operations) && |m.operations| == |ms[k].operations|
  {
  }

  /** Overwriting is idempotent; appending is not: a second sync of the same XML comment adds it again. */
  lemma {:induction false} SyncPolicies(ms: seq<AuditMovement>, fileName: string, lineId: string, comment: string)
    ensures var once := SyncDeclarationComment(ms, fileName, comment);
            SyncDeclarationComment(once, fileName, comment) == once
    ensures forall k, j :: 0 <= k < |ms| && LinkedToLine(ms[k], lineId) && 0 <= j < |ms[k].operations| ==>
              var once := SyncXmlComment(ms, lineId, comment);
              var twice := SyncXmlComment(once, lineId, comment);
              |twice[k].operations[j].reviewData.comments| > |once[k].operations[j].reviewData.comments|
  {
    var once := SyncDeclarationComment(ms, fileName, comment);
    var twice := SyncDeclarationComment(once, fileName, comment);
    forall k | 0 <= k < |ms| ensures twice[k] == once[k] {
      if LinkedToDeclaration(ms[k], fileName) {
        assert twice[k].operations == once[k].operations;
      }
    }
    var x1 := SyncXmlComment(ms, lineId, comment);
    forall k | 0 <= k < |ms| && LinkedToLine(ms[k], lineId) ensures LinkedToLine(x1[k], lineId) {
      assert XmlLinksOf(x1[k]) == XmlLinksOf(ms[k]);
    }
  }
}
