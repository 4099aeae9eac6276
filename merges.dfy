/**
 * The list updates of App.tsx that merge new entries into a collection:
 * the comment catalogue, the processed-declaration list and the review upsert.
 */
module Merges {
  import opened Wrappers
  import opened Seqs
  import opened Types
  import opened LinkGraph

  predicate NoDuplicates<T(==)>(s: seq<T>)
  {
    forall a, b :: 0 <= a < b < |s| ==> s[a] != s[b]
  }

  /** handleSaveCustomComment: append when non-empty and not already present. */
  function AddCustomComment(comments: seq<string>, c: string): (r: seq<string>)
    ensures c != "" && c !in comments ==> r == comments + [c]
    ensures c == "" || c in comments ==> r == comments
  {
    if c != "" && c !in comments then comments + [c] else comments
  }

  /** The catalogue keeps its order and duplicate-freedom, and afterwards holds every non-empty comment offered. */
  lemma AddCustomCommentSpec(comments: seq<string>, c: string)
    ensures comments <= AddCustomComment(comments, c)
    ensures NoDuplicates(comments) ==> NoDuplicates(AddCustomComment(comments, c))
    ensures c != "" ==> c in AddCustomComment(comments, c)
    ensures AddCustomComment(AddCustomComment(comments, c), c) == AddCustomComment(comments, c)
    ensures forall x :: x in AddCustomComment(comments, c) <==> x in comments || (x == c && c != "")
  {
    var r := AddCustomComment(comments, c);
    if c != "" && c !in comments && NoDuplicates(comments) {
      forall a, b | 0 <= a < b < |r| ensures r[a] != r[b] {
        if b == |comments| {
          assert r[a] == comments[a];
        }
      }
    }
  }

  /** The predefined catalogue has no duplicates, so every catalogue built from it by AddCustomComment has none. */
  lemma PredefinedCommentsDistinct()
    ensures NoDuplicates(PredefinedComments)
  {
  }

  predicate HasProcessedId(s: seq<ProcessedDeclaration>, id: string)
  {
    exists k :: 0 <= k < |s| && s[k].id == id
  }

  /** processNewDeclarations' merge: keep `prev`, append the results whose id is not already in `prev`. */
  function MergeProcessed(prev: seq<ProcessedDeclaration>, results: seq<ProcessedDeclaration>): seq<ProcessedDeclaration>
  {
    prev + FreshResults(prev, results)
  }

  /** The results whose id is not in `prev` (`results.filter(r => !existingIds.has(r.id))`). */
  function FreshResults(prev: seq<ProcessedDeclaration>, results: seq<ProcessedDeclaration>): (r: seq<ProcessedDeclaration>)
    ensures forall d :: d in r <==> d in results && !HasProcessedId(prev, d.id)
    ensures (forall d :: d in results ==> HasProcessedId(prev, d.id)) ==> r == []
  {
    Filter(results, (d: ProcessedDeclaration) => !HasProcessedId(prev, d.id))
  }

  predicate UniqueIds(s: seq<ProcessedDeclaration>)
  {
    forall a, b :: 0 <= a < b < |s| ==> s[a].id != s[b].id
  }

  /**
   * The merge keeps `prev` in front, adds exactly the results with a new id,
   * and a second merge of the same results adds nothing.
   */
  lemma MergeProcessedSpec(prev: seq<ProcessedDeclaration>, results: seq<ProcessedDeclaration>)
    ensures prev <= MergeProcessed(prev, results)
    ensures forall d :: d in MergeProcessed(prev, results) <==> d in prev || (d in results && !HasProcessedId(prev, d.id))
    ensures forall d :: d in results ==> HasProcessedId(MergeProcessed(prev, results), d.id)
    ensures MergeProcessed(MergeProcessed(prev, results), results) == MergeProcessed(prev, results)
  {
    var m := MergeProcessed(prev, results);
    var added := FreshResults(prev, results);
    assert m[..|prev|] == prev;
    forall d | d in results ensures HasProcessedId(m, d.id) {
      if HasProcessedId(prev, d.id) {
        var k :| 0 <= k < |prev| && prev[k].id == d.id;
        assert m[k] == prev[k];
      } else {
        assert d in added;
        var k :| 0 <= k < |added| && added[k] == d;
        assert m[|prev| + k] == d;
      }
    }
    assert FreshResults(m, results) == [];
  }

  /** Ids stay unique across merges only if one batch carries no id twice: the merge does not dedupe within a batch. */
  lemma {:induction false} MergeProcessedWithinBatch(prev: seq<ProcessedDeclaration>, d: ProcessedDeclaration)
    requires !HasProcessedId(prev, d.id)
    ensures var m := MergeProcessed(prev, [d, d]);
            |m| == |prev| + 2 && m[|prev|] == m[|prev| + 1] == d && !UniqueIds(m)
  {
    var isNew := (x: ProcessedDeclaration) => !HasProcessedId(prev, x.id);
    FilterAppend([d], [d], isNew);
    assert [d] + [d] == [d, d];
    assert FreshResults(prev, [d, d]) == [d, d];
    var m := MergeProcessed(prev, [d, d]);
    assert m == prev + [d, d];
    assert m[|prev|].id == m[|prev| + 1].id;
  }

  /** `prev.findIndex(r => r.fileId === fileId)`, as an index or None for -1. */
  function FindReview(reviews: seq<DeclarationReview>, fileId: string): (r: Option<nat>)
    ensures r.None? <==> forall k :: 0 <= k < |reviews| ==> reviews[k].fileId != fileId
    ensures r.Some? ==> r.value < |reviews| && reviews[r.value].fileId == fileId
                        && forall k :: 0 <= k < r.value ==> reviews[k].fileId != fileId
  {
    if reviews == [] then None
    else if reviews[0].fileId == fileId then Some(0)
    else match FindReview(reviews[1..], fileId)
      case None => None
      case Some(i) => Some(i + 1)
  }

  /** onUpdateReview's list update: replace the first review of that file, or append. */
  function UpsertReview(reviews: seq<DeclarationReview>, updated: DeclarationReview): seq<DeclarationReview>
  {
    match FindReview(reviews, updated.fileId)
    case Some(i) => reviews[i := updated]
    case None => reviews + [updated]
  }

  predicate UniqueReviewFiles(reviews: seq<DeclarationReview>)
  {
    forall a, b :: 0 <= a < b < |reviews| ==> reviews[a].fileId != reviews[b].fileId
  }

  /**
   * After the upsert the first review of the file is the updated one, the
   * reviews of other files are unchanged and keep their order, at most one
   * review is added, and one review per file is preserved.
   */
  lemma UpsertReviewSpec(reviews: seq<DeclarationReview>, updated: DeclarationReview)
    ensures var r := UpsertReview(reviews, updated);
            FindReview(r, updated.fileId).Some? && r[FindReview(r, updated.fileId).value] == updated
    ensures var r := UpsertReview(reviews, updated);
            |r| == |reviews| + (if FindReview(reviews, updated.fileId).None? then 1 else 0)
    ensures var r := UpsertReview(reviews, updated);
            forall k :: 0 <= k < |reviews| && reviews[k].fileId != updated.fileId ==> r[k] == reviews[k]
    ensures FindReview(reviews, updated.fileId).Some? ==>
              UpsertReview(reviews, updated) == reviews[FindReview(reviews, updated.fileId).value := updated]
    ensures FindReview(reviews, updated.fileId).None? ==> UpsertReview(reviews, updated) == reviews + [updated]
    ensures UniqueReviewFiles(reviews) ==> UniqueReviewFiles(UpsertReview(reviews, updated))
    ensures UpsertReview(UpsertReview(reviews, updated), updated) == UpsertReview(reviews, updated)
  {
    var r := UpsertReview(reviews, updated);
    match FindReview(reviews, updated.fileId)
    case Some(i) =>
      assert FindReview(r, updated.fileId) == Some(i) by {
        FindReviewFirst(r, updated.fileId, i);
      }
    case None =>
      assert FindReview(r, updated.fileId) == Some(|reviews|) by {
        FindReviewFirst(r, updated.fileId, |reviews|);
      }
  }

  lemma FindReviewFirst(reviews: seq<DeclarationReview>, fileId: string, i: nat)
    requires i < |reviews| && reviews[i].fileId == fileId
    requires forall k :: 0 <= k < i ==> reviews[k].fileId != fileId
    ensures FindReview(reviews, fileId) == Some(i)
  {
  }

  /** Whether onUpdateReview syncs: some processed declaration has the review's file id or file name. */
  predicate HasMetadataFor(processed: seq<ProcessedDeclaration>, updated: DeclarationReview)
  {
    exists k :: 0 <= k < |processed| && (processed[k].id == updated.fileId || processed[k].fileName == updated.fileName)
  }

  /** onUpdateReview's movement update. */
  function ReviewMovements(ms: seq<AuditMovement>, processed: seq<ProcessedDeclaration>, updated: DeclarationReview): seq<AuditMovement>
  {
    if HasMetadataFor(processed, updated) then SyncDeclarationComment(ms, updated.fileName, updated.auditorComments)
    else ms
  }

  /**
   * The auditor's comments reach the movements linked to that file name only
   * when the declaration was processed; otherwise the movements are unchanged.
   */
  lemma ReviewMovementsSpec(ms: seq<AuditMovement>, processed: seq<ProcessedDeclaration>, updated: DeclarationReview)
    ensures !HasMetadataFor(processed, updated) ==> ReviewMovements(ms, processed, updated) == ms
    ensures HasMetadataFor(processed, updated) ==>
              forall k, j :: 0 <= k < |ms| && LinkedToDeclaration(ms[k], updated.fileName) && 0 <= j < |ms[k].operations| ==>
                ReviewMovements(ms, processed, updated)[k].operations[j].reviewData.comments == updated.auditorComments
    ensures forall k :: 0 <= k < |ms| && !LinkedToDeclaration(ms[k], updated.fileName) ==>
              ReviewMovements(ms, processed, updated)[k] == ms[k]
  {
    SyncDeclarationCommentSpec(ms, updated.fileName, updated.auditorComments);
  }
}
