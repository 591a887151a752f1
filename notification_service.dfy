/** The notification service: authoring, editing and deleting notifications
    targeted at classes, the expiry sweep, and the read paths (the student
    feed, a class's recent notifications and a teacher's statistics).
    Writes are transactions: a failure leaves the database as it was. The
    clock is the parameter `now`, one reading per call. */
module Notifications {
  import opened Common
  import opened Ordering
  import opened ClassModel
  import opened NotificationModel
  import opened NotificationClassModel
  import opened NotificationRepository
  import opened NotificationClassRepository
  import opened NotificationDto
  import opened Store

  /** The body of a create request; any field may be null. */
  datatype CreateRequest = CreateRequest(
    title: Option<string>,
    content: Option<string>,
    scheduledAt: Option<Timestamp>,
    kind: Option<NotificationType>,
    classIds: Option<seq<ClassId>>)

  /** The body of an update request; a null field means "keep". */
  datatype UpdateRequest = UpdateRequest(
    title: Option<string>,
    content: Option<string>,
    scheduledAt: Option<Timestamp>,
    status: Option<Status>,
    kind: Option<NotificationType>,
    classIds: Option<seq<ClassId>>)

  // ------------------------------------------------------------ targeting

  /** The failure of the class loop: the first listed class that does not
      exist (not found) or that the teacher does not own (forbidden). */
  function TargetCheck(classes: map<ClassId, ClassRecord>, teacherId: UserId, classIds: seq<ClassId>): (e: Option<Error>)
    ensures e.None? <==> forall c :: c in classIds ==> c in classes && classes[c].teacher == teacherId
    ensures e == Some(NotFound) ==> exists c :: c in classIds && c !in classes
    ensures e == Some(Forbidden) ==> exists c :: c in classIds && c in classes && classes[c].teacher != teacherId
    ensures e.None? || e == Some(NotFound) || e == Some(Forbidden)
    decreases |classIds|
  {
    if classIds == [] then None
    else if classIds[0] !in classes then Some(NotFound)
    else if classes[classIds[0]].teacher != teacherId then Some(Forbidden)
    else TargetCheck(classes, teacherId, classIds[1..])
  }

  /** Classes already accepted by the loop do not change its outcome. */
  lemma {:induction false} TargetCheckFrom(classes: map<ClassId, ClassRecord>, teacherId: UserId, classIds: seq<ClassId>, i: nat)
    requires i <= |classIds|
    requires forall j :: 0 <= j < i ==> classIds[j] in classes && classes[classIds[j]].teacher == teacherId
    ensures TargetCheck(classes, teacherId, classIds) == TargetCheck(classes, teacherId, classIds[i..])
    decreases i
  {
    if i > 0 {
      TargetCheckFrom(classes, teacherId, classIds[1..], i - 1);
      assert classIds[1..][i - 1..] == classIds[i..];
    }
  }

  /** The associations the class loop saves: one per listed class, in list
      order, each stamped with `now` by its pre-persist hook. */
  function NewTargets(id: NotificationId, classIds: seq<ClassId>, now: Timestamp): (r: seq<TargetRow>)
    ensures |r| == |classIds|
    ensures forall i :: 0 <= i < |r| ==> r[i] == TargetRow(id, classIds[i], now)
    decreases |classIds|
  {
    if classIds == [] then []
    else NewTargets(id, classIds[..|classIds| - 1], now) + [TargetRow(id, classIds[|classIds| - 1], now)]
  }

  function OtherThan(id: NotificationId): TargetRow -> bool {
    (t: TargetRow) => t.notification != id
  }

  /** The association table after deleting the notification's associations
      (the cascade of a delete, or the first half of a re-targeting). */
  function WithoutNotification(targets: seq<TargetRow>, id: NotificationId): (r: seq<TargetRow>)
    ensures forall t :: t in r <==> t in targets && t.notification != id
  {
    Filter(targets, OtherThan(id))
  }

  /** Re-targeting: delete the notification's associations, then save one
      per listed class. */
  function ReplaceTargets(targets: seq<TargetRow>, id: NotificationId, classIds: seq<ClassId>, now: Timestamp): (r: seq<TargetRow>)
    ensures |r| == |WithoutNotification(targets, id)| + |classIds|
    ensures forall t :: t in r <==>
              || (t in targets && t.notification != id)
              || (t.notification == id && t.classId in classIds && t.sentAt == now)
  {
    NewTargetsMembership(id, classIds, now);
    WithoutNotification(targets, id) + NewTargets(id, classIds, now)
  }

  /** The new associations are exactly those of the notification to a
      listed class, sent at `now`. */
  lemma NewTargetsMembership(id: NotificationId, classIds: seq<ClassId>, now: Timestamp)
    ensures forall t :: t in NewTargets(id, classIds, now) <==>
              t.notification == id && t.classId in classIds && t.sentAt == now
  {
    var added := NewTargets(id, classIds, now);
    forall t: TargetRow | t.notification == id && t.classId in classIds && t.sentAt == now
      ensures t in added
    {
      var i :| 0 <= i < |classIds| && classIds[i] == t.classId;
      assert added[i] == t;
    }
  }

  /** After re-targeting, the notification's associations name exactly the
      listed classes, in list order and with their repetitions. */
  lemma ReplaceSetsTargets(targets: seq<TargetRow>, id: NotificationId, classIds: seq<ClassId>, now: Timestamp)
    ensures FindByNotification(ReplaceTargets(targets, id, classIds, now), id) == NewTargets(id, classIds, now)
    ensures ClassIdsOf(FindByNotification(ReplaceTargets(targets, id, classIds, now), id)) == classIds
  {
    var kept, added := WithoutNotification(targets, id), NewTargets(id, classIds, now);
    FilterAppend(kept, added, ForNotification(id));
    FilterEmpty(kept, ForNotification(id));
    FilterAll(added, ForNotification(id));
    assert ClassIdsOf(added) == classIds;
  }

  /** Re-targeting one notification leaves every other notification's
      associations as they were. */
  lemma ReplaceKeepsOthers(targets: seq<TargetRow>, id: NotificationId, other: NotificationId, classIds: seq<ClassId>, now: Timestamp)
    requires other != id
    ensures FindByNotification(ReplaceTargets(targets, id, classIds, now), other) == FindByNotification(targets, other)
  {
    var kept, added := WithoutNotification(targets, id), NewTargets(id, classIds, now);
    FilterAppend(kept, added, ForNotification(other));
    FilterFilter(targets, OtherThan(id), ForNotification(other), ForNotification(other));
    FilterEmpty(added, ForNotification(other));
  }

  /** Deleting a notification removes all of its associations and no
      other. */
  lemma DeleteCascades(targets: seq<TargetRow>, id: NotificationId, other: NotificationId)
    ensures FindByNotification(WithoutNotification(targets, id), id) == []
    ensures other != id ==> FindByNotification(WithoutNotification(targets, id), other) == FindByNotification(targets, other)
  {
    FilterEmpty(WithoutNotification(targets, id), ForNotification(id));
    if other != id {
      FilterFilter(targets, OtherThan(id), ForNotification(other), ForNotification(other));
    }
  }

  /** A fresh notification has no associations yet, so appending its new
      associations is the same as re-targeting it. */
  lemma FreshTargetsReplace(targets: seq<TargetRow>, m: map<NotificationId, NotificationRow>, classes: map<ClassId, ClassRecord>,
                            id: NotificationId, classIds: seq<ClassId>, now: Timestamp)
    requires TargetsValid(targets, m, classes) && id !in m
    ensures targets + NewTargets(id, classIds, now) == ReplaceTargets(targets, id, classIds, now)
  {
    FilterAll(targets, OtherThan(id));
  }

  /** The associations a create appends are its re-targeting, and they name
      exactly the listed classes. */
  lemma CreatedTargets(targets: seq<TargetRow>, m: map<NotificationId, NotificationRow>, classes: map<ClassId, ClassRecord>,
                       id: NotificationId, classIds: seq<ClassId>, now: Timestamp)
    requires TargetsValid(targets, m, classes) && id !in m
    ensures targets + NewTargets(id, classIds, now) == ReplaceTargets(targets, id, classIds, now)
    ensures FindByNotification(targets + NewTargets(id, classIds, now), id) == NewTargets(id, classIds, now)
    ensures ClassIdsOf(NewTargets(id, classIds, now)) == classIds
  {
    FreshTargetsReplace(targets, m, classes, id, classIds, now);
    ReplaceSetsTargets(targets, id, classIds, now);
  }

  // -------------------------------------------------------------- create

  /** The first failure of createNotification, in the order the checks
      run: unknown author, author not a teacher, no class listed, the
      NOT NULL and length constraints when the notification is inserted,
      then the class loop. */
  function CreateError(users: map<UserId, User>, classes: map<ClassId, ClassRecord>, request: CreateRequest, teacherId: UserId): (e: Option<Error>)
    ensures e == Some(InvalidArgument) ==> request.classIds.None? || request.classIds.value == []
    ensures e == Some(ConstraintViolation) ==>
              request.title.None? || request.content.None? || !TitleFits(request.title.value)
    ensures e == Some(Forbidden) ==>
              (teacherId in users && users[teacherId].role != Teacher)
              || (request.classIds.Some? && exists c :: c in request.classIds.value && c in classes && classes[c].teacher != teacherId)
    ensures e.Some? ==> e.value != Conflict
  {
    if teacherId !in users then Some(NotFound)
    else if users[teacherId].role != Teacher then Some(Forbidden)
    else if request.classIds.None? || request.classIds.value == [] then Some(InvalidArgument)
    else if request.title.None? || request.content.None? || !TitleFits(request.title.value) then Some(ConstraintViolation)
    else TargetCheck(classes, teacherId, request.classIds.value)
  }

  /** What create refuses, independently of the order of the checks: an
      unknown author, a non-teacher, a missing or empty class list, and any
      listed class that is unknown or not the author's. */
  lemma CreateRequirements(users: map<UserId, User>, classes: map<ClassId, ClassRecord>, request: CreateRequest, teacherId: UserId)
    ensures CreateError(users, classes, request, teacherId).None? <==>
      && teacherId in users && users[teacherId].role == Teacher
      && request.classIds.Some? && request.classIds.value != []
      && request.title.Some? && request.content.Some? && TitleFits(request.title.value)
      && forall c :: c in request.classIds.value ==> c in classes && classes[c].teacher == teacherId
    ensures teacherId !in users ==> CreateError(users, classes, request, teacherId) == Some(NotFound)
    ensures teacherId in users && users[teacherId].role != Teacher ==> CreateError(users, classes, request, teacherId) == Some(Forbidden)
    ensures teacherId in users && users[teacherId].role == Teacher && (request.classIds.None? || request.classIds == Some([])) ==>
              CreateError(users, classes, request, teacherId) == Some(InvalidArgument)
  {
  }

  /** The row a successful create stores: scheduledAt and type default to
      `now` and OTHER when omitted, createdAt is `now`, status is ACTIVE. */
  function CreatedRow(id: NotificationId, teacherId: UserId, request: CreateRequest, now: Timestamp): NotificationRow
    requires request.title.Some? && request.content.Some?
  {
    NotificationRow(id, teacherId, request.title.value, request.content.value, now,
                    request.scheduledAt.GetOr(now), Active, request.kind.GetOr(Other))
  }

  // -------------------------------------------------------------- update

  /** The partial update: exactly the non-null fields of the request
      overwrite the row; id, author and createdAt are never touched. */
  function ApplyUpdate(row: NotificationRow, request: UpdateRequest): (r: NotificationRow)
    ensures r.id == row.id && r.teacher == row.teacher && r.createdAt == row.createdAt
    ensures r.title == request.title.GetOr(row.title)
    ensures r.content == request.content.GetOr(row.content)
    ensures r.scheduledAt == request.scheduledAt.GetOr(row.scheduledAt)
    ensures r.status == request.status.GetOr(row.status)
    ensures r.kind == request.kind.GetOr(row.kind)
  {
    var r := row.(title := request.title.GetOr(row.title), content := request.content.GetOr(row.content));
    var r := r.(scheduledAt := request.scheduledAt.GetOr(row.scheduledAt), status := request.status.GetOr(row.status));
    r.(kind := request.kind.GetOr(row.kind))
  }

  /** Applying the same update twice is applying it once; an update with
      only null fields changes nothing. */
  lemma UpdateIdempotent(row: NotificationRow, request: UpdateRequest)
    ensures ApplyUpdate(ApplyUpdate(row, request), request) == ApplyUpdate(row, request)
    ensures (&& request.title.None? && request.content.None? && request.scheduledAt.None?
             && request.status.None? && request.kind.None?) ==> ApplyUpdate(row, request) == row
  {
  }

  /** The first failure of updateNotification: unknown notification,
      requester not the author, the class loop when a class list is given,
      then the title length when the changed row is written at the final
      save and commit. */
  function UpdateError(m: map<NotificationId, NotificationRow>, classes: map<ClassId, ClassRecord>,
                       id: NotificationId, request: UpdateRequest, teacherId: UserId): (e: Option<Error>)
    ensures e.None? <==>
      && id in m && m[id].teacher == teacherId
      && (request.classIds.Some? ==> forall c :: c in request.classIds.value ==> c in classes && classes[c].teacher == teacherId)
      && TitleFits(ApplyUpdate(m[id], request).title)
    ensures e == Some(ConstraintViolation) ==> id in m && !TitleFits(ApplyUpdate(m[id], request).title)
    ensures e.Some? ==> e.value != InvalidArgument && e.value != Conflict
  {
    if id !in m then Some(NotFound)
    else if m[id].teacher != teacherId then Some(Forbidden)
    else if request.classIds.Some? && TargetCheck(classes, teacherId, request.classIds.value).Some? then
      TargetCheck(classes, teacherId, request.classIds.value)
    else if !TitleFits(ApplyUpdate(m[id], request).title) then Some(ConstraintViolation)
    else None
  }

  /** The first failure of deleteNotification. */
  function DeleteError(m: map<NotificationId, NotificationRow>, id: NotificationId, teacherId: UserId): (e: Option<Error>)
    ensures e.None? <==> id in m && m[id].teacher == teacherId
    ensures e == Some(NotFound) <==> id !in m
  {
    if id !in m then Some(NotFound)
    else if m[id].teacher != teacherId then Some(Forbidden)
    else None
  }

  /** Only the author may edit or delete: a request by anyone else on an
      existing notification is refused, whatever it contains. */
  lemma NonAuthorRefused(m: map<NotificationId, NotificationRow>, classes: map<ClassId, ClassRecord>,
                         id: NotificationId, request: UpdateRequest, teacherId: UserId)
    requires id in m && m[id].teacher != teacherId
    ensures UpdateError(m, classes, id, request, teacherId) == Some(Forbidden)
    ensures DeleteError(m, id, teacherId) == Some(Forbidden)
  {
  }

  // --------------------------------------------------------------- sweep

  /** One row after the sweep: ACTIVE and overdue becomes EXPIRED. */
  function ExpireIfDue(n: NotificationRow, now: Timestamp): (r: NotificationRow)
    ensures r == n.(status := r.status)
    ensures r.status != n.status <==> n.status == Active && n.scheduledAt < now
    ensures r.status != n.status ==> r.status == Expired
  {
    if n.status == Active && n.scheduledAt < now then n.(status := Expired) else n
  }

  /** The table after the expiry sweep at `now`: exactly the ACTIVE rows
      scheduled before `now` become EXPIRED, and no other field or row
      changes. */
  function Swept(m: map<NotificationId, NotificationRow>, now: Timestamp): (r: map<NotificationId, NotificationRow>)
    ensures r.Keys == m.Keys
    ensures forall k :: k in m ==> r[k].status == (if m[k].status == Active && m[k].scheduledAt < now then Expired else m[k].status)
    ensures forall k :: k in m ==> r[k] == m[k].(status := r[k].status)
  {
    map k | k in m :: ExpireIfDue(m[k], now)
  }

  /** A second sweep at the same instant changes nothing. */
  lemma SweepIdempotent(m: map<NotificationId, NotificationRow>, now: Timestamp)
    ensures Swept(Swept(m, now), now) == Swept(m, now)
  {
  }

  /** After the sweep nothing is left for the expiry query to find. */
  lemma SweepLeavesNothingDue(m: map<NotificationId, NotificationRow>, now: Timestamp)
    ensures FindExpired(Swept(m, now), now) == []
  {
    var swept := Swept(m, now);
    var rows := Rows(swept);
    forall n | n in rows ensures !Overdue(now)(n) {
      var k :| k in swept && swept[k] == n;
    }
    FilterEmpty(rows, Overdue(now));
  }

  /** A sweep at an earlier instant is absorbed by a later one. */
  lemma SweepMonotone(m: map<NotificationId, NotificationRow>, earlier: Timestamp, later: Timestamp)
    requires earlier <= later
    ensures Swept(Swept(m, earlier), later) == Swept(m, later)
  {
  }

  /** Expiring the rows the expiry query returns is the sweep. */
  lemma ExpireDueSweeps(table: map<NotificationId, NotificationRow>, now: Timestamp)
    requires KeyedById(table)
    ensures ExpireAll(table, FindExpired(table, now)) == Swept(table, now)
  {
    var due := FindExpired(table, now);
    DueRowsStored(table, now);
    ExpireAllExpiresAll(table, due);
    ExpiringDueRowsSweeps(table, now, ExpireAll(table, due));
  }

  /** The sweep changes only statuses, so the table stays valid. */
  lemma SweepKeepsValid(m: map<NotificationId, NotificationRow>, users: map<UserId, User>, nextId: NotificationId,
                        targets: seq<TargetRow>, classes: map<ClassId, ClassRecord>, now: Timestamp)
    requires NotificationsValid(m, users, nextId) && TargetsValid(targets, m, classes)
    ensures NotificationsValid(Swept(m, now), users, nextId) && TargetsValid(targets, Swept(m, now), classes)
  {
  }

  /** Expiring the rows the expiry query returns gives the sweep, which
      keeps the tables valid. */
  lemma SweepCommits(table: map<NotificationId, NotificationRow>, users: map<UserId, User>, nextId: NotificationId,
                     targets: seq<TargetRow>, classes: map<ClassId, ClassRecord>, now: Timestamp,
                     swept: map<NotificationId, NotificationRow>)
    requires NotificationsValid(table, users, nextId) && TargetsValid(targets, table, classes)
    requires swept == ExpireAll(table, FindExpired(table, now))
    ensures swept == Swept(table, now)
    ensures NotificationsValid(swept, users, nextId) && TargetsValid(targets, swept, classes)
  {
    ExpireDueSweeps(table, now);
    SweepKeepsValid(table, users, nextId, targets, classes, now);
  }

  /** `m` is `table` with the rows among `done` set to EXPIRED. */
  predicate ExpiredAmong(table: map<NotificationId, NotificationRow>, done: seq<NotificationRow>, m: map<NotificationId, NotificationRow>) {
    && m.Keys == table.Keys
    && forall k :: k in m ==> m[k] == if table[k] in done then table[k].(status := Expired) else table[k]
  }

  /** Each row the expiry query returns is the row stored under its id. */
  lemma DueRowsStored(table: map<NotificationId, NotificationRow>, now: Timestamp)
    requires KeyedById(table)
    ensures forall n :: n in FindExpired(table, now) ==> n.id in table && table[n.id] == n
  {
    forall n | n in FindExpired(table, now) ensures n.id in table && table[n.id] == n {
      assert n in table.Values;
    }
  }

  /** The table with row `n`, stored under its id, set to EXPIRED. */
  function WithExpired(m: map<NotificationId, NotificationRow>, n: NotificationRow): map<NotificationId, NotificationRow> {
    m[n.id := n.(status := Expired)]
  }

  /** One iteration of the sweep loop: expiring the next due row, stored
      under its own id, extends the expired rows by that row. */
  lemma ExpireOne(table: map<NotificationId, NotificationRow>, due: seq<NotificationRow>, i: nat, m: map<NotificationId, NotificationRow>)
    requires KeyedById(table) && i < |due| && due[i].id in table && table[due[i].id] == due[i]
    requires ExpiredAmong(table, due[..i], m)
    ensures ExpiredAmong(table, due[..i + 1], WithExpired(m, due[i]))
  {
    var n := due[i];
    var m' := WithExpired(m, n);
    assert due[..i + 1] == due[..i] + [n];
    forall k | k in m' ensures m'[k] == if table[k] in due[..i + 1] then table[k].(status := Expired) else table[k] {
      assert table[k] in due[..i + 1] <==> table[k] in due[..i] || table[k] == n;
      if table[k] == n {
        assert k == n.id;
      }
    }
  }

  /** The table with each of the rows `ns` set to EXPIRED, in order. */
  function ExpireAll(m: map<NotificationId, NotificationRow>, ns: seq<NotificationRow>): map<NotificationId, NotificationRow>
    decreases |ns|
  {
    if ns == [] then m else WithExpired(ExpireAll(m, ns[..|ns| - 1]), ns[|ns| - 1])
  }

  lemma {:induction false} ExpireAllAmong(table: map<NotificationId, NotificationRow>, due: seq<NotificationRow>, i: nat)
    requires KeyedById(table) && i <= |due|
    requires forall n :: n in due ==> n.id in table && table[n.id] == n
    ensures ExpiredAmong(table, due[..i], ExpireAll(table, due[..i]))
    decreases i
  {
    if i == 0 {
      assert due[..i] == [];
    } else {
      ExpireAllAmong(table, due, i - 1);
      assert due[..i][..i - 1] == due[..i - 1];
      assert due[i - 1] in due;
      ExpireOne(table, due, i - 1, ExpireAll(table, due[..i - 1]));
    }
  }

  lemma ExpireAllExpiresAll(table: map<NotificationId, NotificationRow>, due: seq<NotificationRow>)
    requires KeyedById(table)
    requires forall n :: n in due ==> n.id in table && table[n.id] == n
    ensures ExpiredAmong(table, due, ExpireAll(table, due))
  {
    ExpireAllAmong(table, due, |due|);
    assert due[..|due|] == due;
  }

  /** Expiring exactly the rows the expiry query returns is the sweep. */
  lemma ExpiringDueRowsSweeps(table: map<NotificationId, NotificationRow>, now: Timestamp, m: map<NotificationId, NotificationRow>)
    requires ExpiredAmong(table, FindExpired(table, now), m)
    ensures m == Swept(table, now)
  {
    var due := FindExpired(table, now);
    forall k | k in table ensures table[k] in due <==> table[k].status == Active && table[k].scheduledAt < now {
      assert table[k] in table.Values;
    }
    ExpiringOverdueSweeps(table, now, due, m);
  }

  /** Expiring the stored rows that are overdue, and only those, is the
      sweep. */
  lemma ExpiringOverdueSweeps(table: map<NotificationId, NotificationRow>, now: Timestamp,
                              due: seq<NotificationRow>, m: map<NotificationId, NotificationRow>)
    requires forall k :: k in table ==> (table[k] in due <==> table[k].status == Active && table[k].scheduledAt < now)
    requires ExpiredAmong(table, due, m)
    ensures m == Swept(table, now)
  {
    var swept := Swept(table, now);
    forall k | k in m ensures m[k] == swept[k] {
    }
    assert m.Keys == swept.Keys;
  }

  /** Storing a new notification with associations to existing classes
      keeps the notification and association tables valid. */
  lemma AddNotificationKeepsValid(m: map<NotificationId, NotificationRow>, users: map<UserId, User>, nextId: NotificationId,
                                  targets: seq<TargetRow>, classes: map<ClassId, ClassRecord>, row: NotificationRow, added: seq<TargetRow>)
    requires NotificationsValid(m, users, nextId) && TargetsValid(targets, m, classes)
    requires row.id == nextId && row.teacher in users && TitleFits(row.title)
    requires forall t :: t in added ==> t.notification == nextId && t.classId in classes
    ensures nextId !in m
    ensures NotificationsValid(m[nextId := row], users, nextId + 1)
    ensures TargetsValid(targets + added, m[nextId := row], classes)
  {
  }

  // --------------------------------------------------------------- reads

  /** The classes the student is enrolled in. */
  function StudentClassIds(enrollments: set<Enrollment>, studentId: UserId): (r: set<ClassId>)
    ensures forall c :: c in r <==> Enrollment(c, studentId) in enrollments
  {
    set e | e in enrollments && e.studentId == studentId :: e.classId
  }

  /** The notification of each association, in order. */
  function Owners(assocs: seq<TargetRow>, m: map<NotificationId, NotificationRow>): (r: seq<NotificationRow>)
    requires forall t :: t in assocs ==> t.notification in m
    ensures |r| == |assocs|
    ensures forall i :: 0 <= i < |r| ==> r[i] == m[assocs[i].notification]
    decreases |assocs|
  {
    if assocs == [] then []
    else Owners(assocs[..|assocs| - 1], m) + [m[assocs[|assocs| - 1].notification]]
  }

  /** A notification is owned by one of the associations exactly when one
      of them references it. */
  lemma OwnersMembership(assocs: seq<TargetRow>, m: map<NotificationId, NotificationRow>)
    requires forall t :: t in assocs ==> t.notification in m
    ensures forall n :: n in Owners(assocs, m) <==> exists t :: t in assocs && m[t.notification] == n
  {
    var r := Owners(assocs, m);
    forall n | n in r ensures exists t :: t in assocs && m[t.notification] == n {
      var i :| 0 <= i < |r| && r[i] == n;
      assert assocs[i] in assocs;
    }
    forall n | exists t :: t in assocs && m[t.notification] == n ensures n in r {
      var t :| t in assocs && m[t.notification] == n;
      var i :| 0 <= i < |assocs| && assocs[i] == t;
      assert r[i] == n;
    }
  }

  /** Associations ordered by their notification's createdAt give
      notifications ordered by createdAt. */
  lemma OwnersSorted(assocs: seq<TargetRow>, m: map<NotificationId, NotificationRow>)
    requires forall t :: t in assocs ==> t.notification in m
    requires SortedBy(assocs, JoinedNewest(m))
    ensures SortedBy(Owners(assocs, m), Newest())
  {
    var r := Owners(assocs, m);
    forall i, j | 0 <= i < j < |r| ensures Newest()(r[i]) >= Newest()(r[j]) {
      assert JoinedNewest(m)(assocs[i]) >= JoinedNewest(m)(assocs[j]);
      assert assocs[i] in assocs && assocs[j] in assocs;
    }
  }

  /** getNotificationsForStudent: the notifications targeted at any class
      the student is enrolled in, each once, newest first. */
  function NotificationsForStudent(users: map<UserId, User>, enrollments: set<Enrollment>, targets: seq<TargetRow>,
                                   m: map<NotificationId, NotificationRow>, studentId: UserId): (r: Result<seq<NotificationRow>>)
    ensures r.Err? <==> studentId !in users
    ensures r.Err? ==> r.error == NotFound
    ensures r.Ok? && StudentClassIds(enrollments, studentId) == {} ==> r.value == []
    ensures r.Ok? ==> NoDuplicates(r.value)
    ensures r.Ok? ==> SortedBy(r.value, Newest())
    ensures r.Ok? ==> forall n :: n in r.value <==>
              exists t :: t in targets && t.classId in StudentClassIds(enrollments, studentId) && t.notification in m && m[t.notification] == n
  {
    if studentId !in users then Err(NotFound)
    else
      var mine := StudentClassIds(enrollments, studentId);
      var classIds := SortedKeys(mine);
      if classIds == [] then Ok([])
      else
        var assocs := FindByClassIds(targets, m, classIds);
        var owners := Owners(assocs, m);
        var feed := SortDesc(Distinct(owners), Newest());
        SortKeepsNoDuplicates(Distinct(owners), Newest());
        FeedMembership(targets, m, mine, classIds, assocs);
        Ok(feed)
  }

  lemma FeedMembership(targets: seq<TargetRow>, m: map<NotificationId, NotificationRow>, mine: set<ClassId>,
                       classIds: seq<ClassId>, assocs: seq<TargetRow>)
    requires forall c :: c in classIds <==> c in mine
    requires assocs == FindByClassIds(targets, m, classIds)
    ensures forall t :: t in assocs ==> t.notification in m
    ensures forall n :: n in Owners(assocs, m) <==>
              exists t :: t in targets && t.classId in mine && t.notification in m && m[t.notification] == n
  {
    OwnersMembership(assocs, m);
  }

  /** In a table keyed by id, the feed never lists two rows with the same
      id. */
  lemma FeedIdsDistinct(users: map<UserId, User>, enrollments: set<Enrollment>, targets: seq<TargetRow>,
                        m: map<NotificationId, NotificationRow>, studentId: UserId)
    requires KeyedById(m)
    requires NotificationsForStudent(users, enrollments, targets, m, studentId).Ok?
    ensures var feed := NotificationsForStudent(users, enrollments, targets, m, studentId).value;
      forall i, j :: 0 <= i < j < |feed| ==> feed[i].id != feed[j].id
  {
    var feed := NotificationsForStudent(users, enrollments, targets, m, studentId).value;
    forall i, j | 0 <= i < j < |feed| ensures feed[i].id != feed[j].id {
      assert feed[i] in feed && feed[j] in feed;
      var s :| s in targets && s.notification in m && m[s.notification] == feed[i];
      var t :| t in targets && t.notification in m && m[t.notification] == feed[j];
      assert feed[i] != feed[j];
    }
  }

  /** getRecentNotificationsForClass: the notifications of the class's
      newest associations, at most `limit` of them; a page size below 1 is
      rejected. The same notification appears once per association, so a
      duplicated association is listed twice. */
  function RecentNotificationsForClass(targets: seq<TargetRow>, m: map<NotificationId, NotificationRow>,
                                       classId: ClassId, limit: int): (r: Result<seq<NotificationRow>>)
    ensures r.Err? <==> limit < 1
    ensures r.Err? ==> r.error == InvalidArgument
    ensures r.Ok? ==> |r.value| <= limit
    ensures r.Ok? ==> var all := FindByClassIds(targets, m, [classId]);
              |r.value| == if limit <= |all| then limit else |all|
    ensures r.Ok? ==> SortedBy(r.value, Newest())
    ensures r.Ok? ==> forall n :: n in r.value ==>
              exists t :: t in targets && t.classId == classId && t.notification in m && m[t.notification] == n
    ensures r.Ok? ==> var all := FindByClassIds(targets, m, [classId]);
              r.value == Owners(all, m)[..|r.value|]
  {
    if limit < 1 then Err(InvalidArgument)
    else
      var page := FindRecentByClass(targets, m, classId, limit);
      OwnersSorted(page, m);
      OwnersMembership(page, m);
      OwnersPrefix(FindByClassIds(targets, m, [classId]), page, m);
      Ok(Owners(page, m))
  }

  /** The notifications of a prefix of the associations are a prefix of the
      notifications of all of them. */
  lemma OwnersPrefix(all: seq<TargetRow>, page: seq<TargetRow>, m: map<NotificationId, NotificationRow>)
    requires forall t :: t in all ==> t.notification in m
    requires |page| <= |all| && page == all[..|page|]
    ensures Owners(page, m) == Owners(all, m)[..|page|]
  {
    assert forall t :: t in page ==> t in all;
  }

  /** The statistics of one teacher. */
  datatype Statistics = Statistics(total: int, active: int, expired: int, inactive: int)

  /** getNotificationStatistics: the total count, the ACTIVE and EXPIRED
      counts, and "inactive" as the total minus those two. That difference
      is the number of INACTIVE notifications, so it is never negative. */
  function NotificationStatistics(users: map<UserId, User>, m: map<NotificationId, NotificationRow>, teacherId: UserId): (r: Result<Statistics>)
    ensures r.Err? <==> teacherId !in users
    ensures r.Err? ==> r.error == NotFound
    ensures r.Ok? ==> r.value.total == |FindByTeacher(m, teacherId)|
    ensures r.Ok? ==> r.value.active == |FindByTeacherAndStatus(m, teacherId, Active)|
    ensures r.Ok? ==> r.value.expired == |FindByTeacherAndStatus(m, teacherId, Expired)|
    ensures r.Ok? ==> r.value.inactive == r.value.total - r.value.active - r.value.expired
    ensures r.Ok? ==> r.value.inactive == |FindByTeacherAndStatus(m, teacherId, Inactive)|
    ensures r.Ok? ==> r.value.inactive >= 0
  {
    if teacherId !in users then Err(NotFound)
    else
      var total := CountByTeacher(m, teacherId);
      var active := |FindByTeacherAndStatus(m, teacherId, Active)|;
      var expired := |FindByTeacherAndStatus(m, teacherId, Expired)|;
      StatusPartition(m, teacherId);
      Ok(Statistics(total, active, expired, total - active - expired))
  }

  // ------------------------------------------------------------- service

  class NotificationService {
    const db: Database

    constructor (db: Database)
      ensures this.db == db
    {
      this.db := db;
    }

    /** The class loop of create and update: checks each listed class in
        order and builds its association. The associations are committed by
        the caller, so a failure midway leaves nothing behind. */
    method BuildTargets(id: NotificationId, classIds: seq<ClassId>, teacherId: UserId, now: Timestamp) returns (r: Result<seq<TargetRow>>)
      ensures var e := TargetCheck(db.classes, teacherId, classIds);
        && (e.Some? ==> r == Err(e.value))
        && (e.None? ==> r == Ok(NewTargets(id, classIds, now)))
    {
      var built: seq<TargetRow> := [];
      var i := 0;
      while i < |classIds|
        invariant 0 <= i <= |classIds|
        invariant forall j :: 0 <= j < i ==> classIds[j] in db.classes && db.classes[classIds[j]].teacher == teacherId
        invariant built == NewTargets(id, classIds[..i], now)
      {
        var c := classIds[i];
        TargetCheckFrom(db.classes, teacherId, classIds, i);
        if c !in db.classes {
          return Err(NotFound);
        }
        if db.classes[c].teacher != teacherId {
          return Err(Forbidden);
        }
        var association := NewAssociation(id, c, now);
        built := built + [association];
        assert classIds[..i + 1][..i] == classIds[..i];
        i := i + 1;
      }
      TargetCheckFrom(db.classes, teacherId, classIds, i);
      assert classIds[..i] == classIds;
      r := Ok(built);
    }

    /** One association of the loop, built through the entity and its
        pre-persist hook, which stamps it with the send time. */
    method NewAssociation(id: NotificationId, c: ClassId, now: Timestamp) returns (t: TargetRow)
      ensures t == TargetRow(id, c, now)
    {
      var association := new NotificationClass();
      association.notification := Some(id);
      association.classObj := Some(c);
      association.OnCreate(now);
      t := association.ToRow();
    }

    /** Commits a new notification row, under the next generated key,
        with its associations. */
    method Insert(row: NotificationRow, added: seq<TargetRow>)
      requires db.Valid()
      requires row.id == db.nextNotificationId && row.teacher in db.users && TitleFits(row.title)
      requires forall t :: t in added ==> t.notification == row.id && t.classId in db.classes
      modifies db
      ensures db.Valid()
      ensures row.id !in old(db.notifications)
      ensures db.notifications == old(db.notifications)[row.id := row]
      ensures db.targets == old(db.targets) + added
      ensures db.nextNotificationId == old(db.nextNotificationId) + 1
      ensures db.users == old(db.users) && db.classes == old(db.classes) && db.enrollments == old(db.enrollments)
      ensures db.nextClassId == old(db.nextClassId)
    {
      AddNotificationKeepsValid(db.notifications, db.users, row.id, db.targets, db.classes, row, added);
      db.notifications := db.notifications[row.id := row];
      db.targets := db.targets + added;
      db.nextNotificationId := row.id + 1;
    }

    /** createNotification as written: the notification and its
        associations are stored, but the returned entity's own association
        list stays the empty list it was created with. */
    method CreateNotificationAsWritten(request: CreateRequest, teacherId: UserId, now: Timestamp) returns (r: Result<Notification>)
      requires db.Valid()
      modifies db
      ensures db.Valid()
      ensures var e := CreateError(old(db.users), old(db.classes), request, teacherId);
        && (e.Some? ==> r == Err(e.value) && unchanged(db))
        && (e.None? ==> r.Ok?)
      ensures r.Ok? ==> request.title.Some? && request.content.Some? && request.classIds.Some?
      ensures r.Ok? ==> var id := old(db.nextNotificationId);
        && fresh(r.value)
        && id !in old(db.notifications)
        && db.notifications == old(db.notifications)[id := CreatedRow(id, teacherId, request, now)]
        && db.targets == old(db.targets) + NewTargets(id, request.classIds.value, now)
        && db.nextNotificationId == id + 1
        && db.users == old(db.users) && db.classes == old(db.classes) && db.enrollments == old(db.enrollments)
        && db.nextClassId == old(db.nextClassId)
      ensures r.Ok? ==>
        && r.value.Persistable() && r.value.id == Some(old(db.nextNotificationId))
        && r.value.ToRow() == db.notifications[old(db.nextNotificationId)]
        && r.value.teacher == Some(old(db.users)[teacherId])
        && r.value.targetClasses == Some([])
        && ResponseFromEntity(r.value).totalClasses == 0
    {
      if teacherId !in db.users {
        return Err(NotFound);
      }
      var teacher := db.users[teacherId];
      if teacher.role != Teacher {
        return Err(Forbidden);
      }
      if request.classIds.None? || request.classIds.value == [] {
        return Err(InvalidArgument);
      }
      var n := NewEntity(teacher, request, now);
      // Inserting the row: the column constraints, then the generated key.
      if !n.Persistable() {
        return Err(ConstraintViolation);
      }
      var id := db.nextNotificationId;
      n.id := Some(id);
      var built := BuildTargets(id, request.classIds.value, teacherId, now);
      if built.Err? {
        return Err(built.error);
      }
      var row := n.ToRow();
      assert row == CreatedRow(id, teacherId, request, now);
      Insert(row, built.value);
      ResponseListsClasses(n, []);
      r := Ok(n);
    }

    /** The entity createNotification builds from the request, after its
        pre-persist hook has run. */
    method NewEntity(teacher: User, request: CreateRequest, now: Timestamp) returns (n: Notification)
      ensures fresh(n)
      ensures n.id.None? && n.teacher == Some(teacher) && n.title == request.title && n.content == request.content
      ensures n.createdAt == Some(now) && n.scheduledAt == Some(request.scheduledAt.GetOr(now))
      ensures n.status == Some(Active) && n.kind == Some(request.kind.GetOr(Other))
      ensures n.targetClasses == Some([])
    {
      n := new Notification();
      n.teacher := Some(teacher);
      n.title := request.title;
      n.content := request.content;
      n.scheduledAt := Some(request.scheduledAt.GetOr(now));
      n.kind := Some(request.kind.GetOr(Other));
      n.OnCreate(now);
    }

    /** createNotification with the saved associations also recorded on the
        returned entity, so its response lists the targeted classes. */
    method CreateNotification(request: CreateRequest, teacherId: UserId, now: Timestamp) returns (r: Result<Notification>)
      requires db.Valid()
      modifies db
      ensures db.Valid()
      ensures var e := CreateError(old(db.users), old(db.classes), request, teacherId);
        && (e.Some? ==> r == Err(e.value) && unchanged(db))
        && (e.None? ==> r.Ok?)
      ensures r.Ok? ==> request.title.Some? && request.content.Some? && request.classIds.Some?
      ensures r.Ok? ==> var id := old(db.nextNotificationId);
        && fresh(r.value)
        && id !in old(db.notifications)
        && db.notifications == old(db.notifications)[id := CreatedRow(id, teacherId, request, now)]
        && db.targets == ReplaceTargets(old(db.targets), id, request.classIds.value, now)
        && db.nextNotificationId == id + 1
        && db.users == old(db.users) && db.classes == old(db.classes) && db.enrollments == old(db.enrollments)
        && db.nextClassId == old(db.nextClassId)
      ensures r.Ok? ==>
        && r.value.Persistable() && r.value.id == Some(old(db.nextNotificationId))
        && r.value.ToRow() == db.notifications[old(db.nextNotificationId)]
        && r.value.teacher == Some(old(db.users)[teacherId])
        && r.value.targetClasses == Some(FindByNotification(db.targets, old(db.nextNotificationId)))
        && ResponseFromEntity(r.value).targetClasses == Some(request.classIds.value)
        && ResponseFromEntity(r.value).totalClasses == |request.classIds.value|
    {
      ghost var before := db.targets;
      r := CreateNotificationAsWritten(request, teacherId, now);
      if r.Ok? {
        var id := r.value.id.value;
        CreatedTargets(before, old(db.notifications), old(db.classes), id, request.classIds.value, now);
        r.value.targetClasses := Some(NewTargets(id, request.classIds.value, now));
        ResponseListsClasses(r.value, NewTargets(id, request.classIds.value, now));
      }
    }

    /** updateNotification: the non-null fields overwrite the row; a given
        class list (even an empty one) replaces the associations, a null one
        leaves them alone. */
    method UpdateNotification(id: NotificationId, request: UpdateRequest, teacherId: UserId, now: Timestamp) returns (r: Result<NotificationRow>)
      requires db.Valid()
      modifies db
      ensures db.Valid()
      ensures var e := UpdateError(old(db.notifications), old(db.classes), id, request, teacherId);
        && (e.Some? ==> r == Err(e.value) && unchanged(db))
        && (e.None? ==> r.Ok?)
      ensures r.Ok? ==>
        && id in old(db.notifications)
        && r.value == ApplyUpdate(old(db.notifications)[id], request)
        && db.notifications == old(db.notifications)[id := r.value]
        && db.targets == (if request.classIds.Some? then ReplaceTargets(old(db.targets), id, request.classIds.value, now) else old(db.targets))
        && db.users == old(db.users) && db.classes == old(db.classes) && db.enrollments == old(db.enrollments)
        && db.nextClassId == old(db.nextClassId) && db.nextNotificationId == old(db.nextNotificationId)
    {
      if id !in db.notifications {
        return Err(NotFound);
      }
      var existing := db.notifications[id];
      if existing.teacher != teacherId {
        return Err(Forbidden);
      }
      var updated := ApplyUpdate(existing, request);
      var targets := db.targets;
      if request.classIds.Some? {
        var built := BuildTargets(id, request.classIds.value, teacherId, now);
        if built.Err? {
          return Err(built.error);
        }
        targets := WithoutNotification(targets, id) + built.value;
      }
      // The changed row is written by the final save, at commit.
      if !TitleFits(updated.title) {
        return Err(ConstraintViolation);
      }
      db.notifications := db.notifications[id := updated];
      db.targets := targets;
      r := Ok(updated);
    }

    /** deleteNotification: the row goes, and with it (by cascade) every
        association of the notification. */
    method DeleteNotification(id: NotificationId, teacherId: UserId) returns (r: Result<()>)
      requires db.Valid()
      modifies db
      ensures db.Valid()
      ensures var e := DeleteError(old(db.notifications), id, teacherId);
        && (e.Some? ==> r == Err(e.value) && unchanged(db))
        && (e.None? ==> r.Ok?)
      ensures r.Ok? ==>
        && id in old(db.notifications)
        && db.notifications == old(db.notifications) - {id}
        && db.targets == WithoutNotification(old(db.targets), id)
        && db.users == old(db.users) && db.classes == old(db.classes) && db.enrollments == old(db.enrollments)
        && db.nextClassId == old(db.nextClassId) && db.nextNotificationId == old(db.nextNotificationId)
    {
      var e := DeleteError(db.notifications, id, teacherId);
      if e.Some? {
        return Err(e.value);
      }
      db.notifications := db.notifications - {id};
      db.targets := WithoutNotification(db.targets, id);
      r := Ok(());
    }

    /** The loop of markExpiredNotifications: each row found is set to
        EXPIRED, one at a time, in the order found. */
    method ExpireRows(table: map<NotificationId, NotificationRow>, due: seq<NotificationRow>) returns (m: map<NotificationId, NotificationRow>)
      ensures m == ExpireAll(table, due)
    {
      m := table;
      var i := 0;
      while i < |due|
        invariant 0 <= i <= |due|
        invariant m == ExpireAll(table, due[..i])
      {
        assert due[..i + 1][..i] == due[..i];
        m := WithExpired(m, due[i]);
        i := i + 1;
      }
      assert due[..i] == due;
    }

    /** markExpiredNotifications: the sweep, saved in one transaction. */
    method MarkExpiredNotifications(now: Timestamp)
      requires db.Valid()
      modifies db
      ensures db.Valid()
      ensures db.notifications == Swept(old(db.notifications), now)
      ensures db.users == old(db.users) && db.classes == old(db.classes) && db.enrollments == old(db.enrollments)
      ensures db.targets == old(db.targets)
      ensures db.nextClassId == old(db.nextClassId) && db.nextNotificationId == old(db.nextNotificationId)
    {
      var table := db.notifications;
      var swept := ExpireRows(table, FindExpired(table, now));
      SweepCommits(table, db.users, db.nextNotificationId, db.targets, db.classes, now, swept);
      SaveRows(swept);
    }

    /** Commits changed notification rows over the same keys. */
    method SaveRows(table: map<NotificationId, NotificationRow>)
      requires db.Valid()
      requires NotificationsValid(table, db.users, db.nextNotificationId) && TargetsValid(db.targets, table, db.classes)
      modifies db
      ensures db.Valid() && db.notifications == table
      ensures db.users == old(db.users) && db.classes == old(db.classes) && db.enrollments == old(db.enrollments)
      ensures db.targets == old(db.targets)
      ensures db.nextClassId == old(db.nextClassId) && db.nextNotificationId == old(db.nextNotificationId)
    {
      db.notifications := table;
    }
  }
}
