/** The finders of the activity log: a document's activities, newest first,
    in full or limited to ten. */
module DocumentActivityRepository {
  import opened Common
  import opened Seqs
  import opened Records

  function CreatedAtKey(a: ActivityRecord): int {
    a.createdAt
  }

  function OfDocument(document: Id): ActivityRecord -> bool {
    (a: ActivityRecord) => a.document == document
  }

  /** `findByDocumentOrderByCreatedAtDesc`. */
  function FindByDocumentOrderByCreatedAtDesc(activities: seq<ActivityRecord>, document: Id): (r: seq<ActivityRecord>)
    ensures forall a :: a in r <==> a in activities && a.document == document
    ensures forall i, j :: 0 <= i < j < |r| ==> r[i].createdAt >= r[j].createdAt
    ensures multiset(r) == multiset(Filter(activities, OfDocument(document)))
  {
    SortDesc(Filter(activities, OfDocument(document)), CreatedAtKey)
  }

  /** `findTop10ByDocumentOrderByCreatedAtDesc`: the ten newest. */
  function FindTop10ByDocumentOrderByCreatedAtDesc(activities: seq<ActivityRecord>, document: Id): (r: seq<ActivityRecord>)
    ensures var all := FindByDocumentOrderByCreatedAtDesc(activities, document);
      r <= all && |r| == if |all| < 10 then |all| else 10
    ensures forall a :: a in r ==> a in activities && a.document == document
    ensures forall i, j :: 0 <= i < j < |r| ==> r[i].createdAt >= r[j].createdAt
  {
    var all := FindByDocumentOrderByCreatedAtDesc(activities, document);
    var r := Take(all, 10);
    assert forall k :: 0 <= k < |r| ==> r[k] == all[k];
    r
  }

  /** Every activity left out of the top ten is no newer than each one kept. */
  lemma TopTenAreNewest(activities: seq<ActivityRecord>, document: Id)
    ensures var all := FindByDocumentOrderByCreatedAtDesc(activities, document);
      var top := FindTop10ByDocumentOrderByCreatedAtDesc(activities, document);
      forall i, j :: 0 <= i < |top| <= j < |all| ==> top[i].createdAt >= all[j].createdAt
  {
    var all := FindByDocumentOrderByCreatedAtDesc(activities, document);
    var top := FindTop10ByDocumentOrderByCreatedAtDesc(activities, document);
    forall i, j | 0 <= i < |top| <= j < |all| ensures top[i].createdAt >= all[j].createdAt {
      assert top[i] == all[i];
    }
  }
}
