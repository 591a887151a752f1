/** The derived queries of the notification-class repository, over the
    association table as a sequence of rows in insertion order. The
    association table carries no uniqueness constraint on a
    (notification, class) pair, so the same pair may occur more than once. */
module NotificationClassRepository {
  import opened Common
  import opened Ordering
  import opened NotificationModel
  import opened NotificationClassModel

  function ForClass(classId: ClassId): TargetRow -> bool {
    (t: TargetRow) => t.classId == classId
  }

  function ForNotification(id: NotificationId): TargetRow -> bool {
    (t: TargetRow) => t.notification == id
  }

  /** The WHERE clause of the class-list query together with its inner join
      to the notifications table. */
  function InClasses(classIds: seq<ClassId>, m: map<NotificationId, NotificationRow>): TargetRow -> bool {
    (t: TargetRow) => t.classId in classIds && t.notification in m
  }

  /** Sort key of ORDER BY nc.notification.createdAt DESC. */
  function JoinedNewest(m: map<NotificationId, NotificationRow>): TargetRow -> int {
    (t: TargetRow) => if t.notification in m then m[t.notification].createdAt else 0
  }

  /** findByClassObj */
  function FindByClass(targets: seq<TargetRow>, classId: ClassId): (r: seq<TargetRow>)
    ensures forall t :: t in r <==> t in targets && t.classId == classId
    ensures forall t :: multiset(r)[t] == if t.classId == classId then multiset(targets)[t] else 0
  {
    FilterCounts(targets, ForClass(classId));
    Filter(targets, ForClass(classId))
  }

  /** findByNotification */
  function FindByNotification(targets: seq<TargetRow>, id: NotificationId): (r: seq<TargetRow>)
    ensures forall t :: t in r <==> t in targets && t.notification == id
  {
    Filter(targets, ForNotification(id))
  }

  /** findByNotification keeps duplicates: each association of the
      notification occurs as often as in the table. */
  lemma FindByNotificationCounts(targets: seq<TargetRow>, id: NotificationId)
    ensures forall t :: multiset(FindByNotification(targets, id))[t] == if t.notification == id then multiset(targets)[t] else 0
  {
    FilterCounts(targets, ForNotification(id));
  }

  /** findByClassIds: the associations to any listed class whose
      notification exists, newest notification first. Each association
      occurs exactly as often as in the table, however often its class is
      listed. */
  function FindByClassIds(targets: seq<TargetRow>, m: map<NotificationId, NotificationRow>, classIds: seq<ClassId>): (r: seq<TargetRow>)
    ensures forall t :: multiset(r)[t] == if t.classId in classIds && t.notification in m then multiset(targets)[t] else 0
    ensures forall t :: t in r <==> t in targets && t.classId in classIds && t.notification in m
    ensures SortedBy(r, JoinedNewest(m))
  {
    var selected := Filter(targets, InClasses(classIds, m));
    FilterCounts(targets, InClasses(classIds, m));
    SortDesc(selected, JoinedNewest(m))
  }

  /** findRecentByClassId with a first page of `pageSize` rows: the newest
      associations of one class. */
  function FindRecentByClass(targets: seq<TargetRow>, m: map<NotificationId, NotificationRow>, classId: ClassId, pageSize: nat): (r: seq<TargetRow>)
    ensures |r| <= pageSize
    ensures forall t :: t in r ==> t in targets && t.classId == classId && t.notification in m
    ensures SortedBy(r, JoinedNewest(m))
    ensures |r| <= |FindByClassIds(targets, m, [classId])|
    ensures r == FindByClassIds(targets, m, [classId])[..|r|]
    ensures |r| == pageSize || r == FindByClassIds(targets, m, [classId])
  {
    var all := FindByClassIds(targets, m, [classId]);
    TakeKeepsOrder(all, pageSize, JoinedNewest(m));
    Take(all, pageSize)
  }

  /** The class-list query depends only on which classes are listed, not on
      their order or repetition. */
  lemma SameClassesSameResult(targets: seq<TargetRow>, m: map<NotificationId, NotificationRow>, a: seq<ClassId>, b: seq<ClassId>)
    requires forall c :: c in a <==> c in b
    ensures FindByClassIds(targets, m, a) == FindByClassIds(targets, m, b)
  {
    FilterSame(targets, InClasses(a, m), InClasses(b, m));
  }
}
