/** The derived queries of the notifications repository, over the table as a
    map from primary key to row. SQL leaves the order of an unordered result,
    and of rows with equal sort keys, to the database; the model fixes it: a
    query without an ORDER BY returns the rows in primary-key order, and an
    ORDER BY is a stable sort of that scan. */
module NotificationRepository {
  import opened Common
  import opened Ordering
  import opened NotificationModel

  /** The table scanned in primary-key order (the order the model fixes for
      a scan). */
  function Rows(m: map<NotificationId, NotificationRow>): (r: seq<NotificationRow>)
    ensures |r| == |m|
    ensures forall n :: n in r <==> n in m.Values
  {
    var ks := SortedKeys(m.Keys);
    RowsMembership(m, ks);
    ValuesAt(m, ks)
  }

  lemma RowsMembership(m: map<NotificationId, NotificationRow>, ks: seq<NotificationId>)
    requires forall k :: k in ks <==> k in m
    ensures forall n :: n in ValuesAt(m, ks) <==> n in m.Values
  {
    var r := ValuesAt(m, ks);
    forall n | n in m.Values ensures n in r {
      var k :| k in m && m[k] == n;
      var i :| 0 <= i < |ks| && ks[i] == k;
      assert r[i] == n;
    }
  }

  // ------------------------------------------------------ selection keys

  function ByTeacher(teacher: UserId): NotificationRow -> bool {
    (n: NotificationRow) => n.teacher == teacher
  }

  function WithStatus(status: Status): NotificationRow -> bool {
    (n: NotificationRow) => n.status == status
  }

  function ByTeacherAndStatus(teacher: UserId, status: Status): NotificationRow -> bool {
    (n: NotificationRow) => n.teacher == teacher && n.status == status
  }

  /** ACTIVE and scheduled strictly after `now`. */
  function Upcoming(now: Timestamp): NotificationRow -> bool {
    (n: NotificationRow) => n.scheduledAt > now && n.status == Active
  }

  /** ACTIVE and scheduled strictly before `now`. */
  function Overdue(now: Timestamp): NotificationRow -> bool {
    (n: NotificationRow) => n.scheduledAt < now && n.status == Active
  }

  /** Sort key of ORDER BY createdAt DESC. */
  function Newest(): NotificationRow -> int {
    (n: NotificationRow) => n.createdAt
  }

  /** Sort key of ORDER BY scheduledAt ASC, as a descending sort on the
      negated timestamp. */
  function Soonest(): NotificationRow -> int {
    (n: NotificationRow) => -n.scheduledAt
  }

  // ------------------------------------------------------------- queries

  /** findByTeacherOrderByCreatedAtDesc */
  function FindByTeacher(m: map<NotificationId, NotificationRow>, teacher: UserId): (r: seq<NotificationRow>)
    ensures forall n :: n in r <==> n in m.Values && n.teacher == teacher
    ensures SortedBy(r, Newest())
  {
    SortDesc(Filter(Rows(m), ByTeacher(teacher)), Newest())
  }

  /** findByStatusOrderByCreatedAtDesc */
  function FindByStatus(m: map<NotificationId, NotificationRow>, status: Status): (r: seq<NotificationRow>)
    ensures forall n :: n in r <==> n in m.Values && n.status == status
    ensures SortedBy(r, Newest())
  {
    SortDesc(Filter(Rows(m), WithStatus(status)), Newest())
  }

  /** findByTeacherAndStatusOrderByCreatedAtDesc */
  function FindByTeacherAndStatus(m: map<NotificationId, NotificationRow>, teacher: UserId, status: Status): (r: seq<NotificationRow>)
    ensures forall n :: n in r <==> n in m.Values && n.teacher == teacher && n.status == status
    ensures SortedBy(r, Newest())
  {
    SortDesc(Filter(Rows(m), ByTeacherAndStatus(teacher, status)), Newest())
  }

  /** findUpcomingNotifications: ACTIVE rows scheduled after `now`, soonest
      first. */
  function FindUpcoming(m: map<NotificationId, NotificationRow>, now: Timestamp): (r: seq<NotificationRow>)
    ensures forall n :: n in r <==> n in m.Values && n.status == Active && n.scheduledAt > now
    ensures forall i, j :: 0 <= i < j < |r| ==> r[i].scheduledAt <= r[j].scheduledAt
  {
    var r := SortDesc(Filter(Rows(m), Upcoming(now)), Soonest());
    SoonestAscending(r);
    r
  }

  /** Descending by the negated time is ascending by time. */
  lemma SoonestAscending(r: seq<NotificationRow>)
    requires SortedBy(r, Soonest())
    ensures forall i, j :: 0 <= i < j < |r| ==> r[i].scheduledAt <= r[j].scheduledAt
  {
    forall i, j | 0 <= i < j < |r| ensures r[i].scheduledAt <= r[j].scheduledAt {
      assert Soonest()(r[i]) >= Soonest()(r[j]);
    }
  }

  /** findExpiredNotifications: ACTIVE rows scheduled before `now`, in
      primary-key order. */
  function FindExpired(m: map<NotificationId, NotificationRow>, now: Timestamp): (r: seq<NotificationRow>)
    ensures forall n :: n in r <==> n in m.Values && n.status == Active && n.scheduledAt < now
  {
    Filter(Rows(m), Overdue(now))
  }

  /** countByTeacher: the number of the teacher's rows, which is the length
      of the teacher's list. */
  function CountByTeacher(m: map<NotificationId, NotificationRow>, teacher: UserId): (r: nat)
    ensures r == |FindByTeacher(m, teacher)|
  {
    CountMatchesList(m, teacher);
    |KeysOfTeacher(m, teacher)|
  }

  function KeysOfTeacher(m: map<NotificationId, NotificationRow>, teacher: UserId): set<NotificationId> {
    set k | k in m && m[k].teacher == teacher
  }

  // ------------------------------------------------------------- lemmas

  /** Counting the teacher's keys agrees with the length of the teacher's
      list. */
  lemma CountMatchesList(m: map<NotificationId, NotificationRow>, teacher: UserId)
    ensures |KeysOfTeacher(m, teacher)| == |FindByTeacher(m, teacher)|
  {
    var ks := SortedKeys(m.Keys);
    assert Rows(m) == ValuesAt(m, ks);
    assert |FindByTeacher(m, teacher)| == |Filter(Rows(m), ByTeacher(teacher))|;
    assert forall i, j :: 0 <= i < j < |ks| ==> ks[i] != ks[j];
    CountSelectedValues(m, ks, ByTeacher(teacher));
    SelectedKeys(m, ks, teacher);
  }

  lemma SelectedKeys(m: map<NotificationId, NotificationRow>, ks: seq<NotificationId>, teacher: UserId)
    requires forall k :: k in ks <==> k in m
    ensures KeysWhere(m, ks, ByTeacher(teacher)) == KeysOfTeacher(m, teacher)
  {
  }

  /** A filtered scan holds one row per selected key. */
  lemma ScanCount(m: map<NotificationId, NotificationRow>, p: NotificationRow -> bool)
    ensures |Filter(Rows(m), p)| == |KeysWhere(m, SortedKeys(m.Keys), p)|
  {
    var ks := SortedKeys(m.Keys);
    assert Rows(m) == ValuesAt(m, ks);
    assert forall i, j :: 0 <= i < j < |ks| ==> ks[i] != ks[j];
    CountSelectedValues(m, ks, p);
  }

  function StatusKeys(m: map<NotificationId, NotificationRow>, status: Status): set<NotificationId> {
    set k | k in m && m[k].status == status
  }

  lemma StatusKeysScanned(m: map<NotificationId, NotificationRow>, ks: seq<NotificationId>, status: Status)
    requires forall k :: k in ks <==> k in m
    ensures KeysWhere(m, ks, WithStatus(status)) == StatusKeys(m, status)
  {
  }

  /** findByStatusOrderByCreatedAtDesc returns each row with that status
      once: its length is the number of such keys. */
  lemma StatusCount(m: map<NotificationId, NotificationRow>, status: Status)
    ensures |FindByStatus(m, status)| == |StatusKeys(m, status)|
  {
    ScanCount(m, WithStatus(status));
    StatusKeysScanned(m, SortedKeys(m.Keys), status);
  }

  function UpcomingKeys(m: map<NotificationId, NotificationRow>, now: Timestamp): set<NotificationId> {
    set k | k in m && m[k].status == Active && m[k].scheduledAt > now
  }

  lemma UpcomingKeysScanned(m: map<NotificationId, NotificationRow>, ks: seq<NotificationId>, now: Timestamp)
    requires forall k :: k in ks <==> k in m
    ensures KeysWhere(m, ks, Upcoming(now)) == UpcomingKeys(m, now)
  {
  }

  /** findUpcomingNotifications returns each upcoming row once. */
  lemma UpcomingCount(m: map<NotificationId, NotificationRow>, now: Timestamp)
    ensures |FindUpcoming(m, now)| == |UpcomingKeys(m, now)|
  {
    ScanCount(m, Upcoming(now));
    UpcomingKeysScanned(m, SortedKeys(m.Keys), now);
  }

  function ExpiredKeys(m: map<NotificationId, NotificationRow>, now: Timestamp): set<NotificationId> {
    set k | k in m && m[k].status == Active && m[k].scheduledAt < now
  }

  lemma ExpiredKeysScanned(m: map<NotificationId, NotificationRow>, ks: seq<NotificationId>, now: Timestamp)
    requires forall k :: k in ks <==> k in m
    ensures KeysWhere(m, ks, Overdue(now)) == ExpiredKeys(m, now)
  {
  }

  /** findExpiredNotifications returns each overdue row once. */
  lemma ExpiredCount(m: map<NotificationId, NotificationRow>, now: Timestamp)
    ensures |FindExpired(m, now)| == |ExpiredKeys(m, now)|
  {
    ScanCount(m, Overdue(now));
    ExpiredKeysScanned(m, SortedKeys(m.Keys), now);
  }

  /** The teacher-and-status query is the teacher's list restricted to that
      status, in the same order. */
  lemma TeacherAndStatusRefinesTeacher(m: map<NotificationId, NotificationRow>, teacher: UserId, status: Status)
    ensures FindByTeacherAndStatus(m, teacher, status) == Filter(FindByTeacher(m, teacher), WithStatus(status))
  {
    var rows := Rows(m);
    SortFilterCommute(Filter(rows, ByTeacher(teacher)), Newest(), WithStatus(status));
    FilterFilter(rows, ByTeacher(teacher), WithStatus(status), ByTeacherAndStatus(teacher, status));
  }

  /** A teacher's notifications split exactly into the three statuses. */
  lemma StatusPartition(m: map<NotificationId, NotificationRow>, teacher: UserId)
    ensures |FindByTeacher(m, teacher)|
         == |FindByTeacherAndStatus(m, teacher, Active)|
          + |FindByTeacherAndStatus(m, teacher, Inactive)|
          + |FindByTeacherAndStatus(m, teacher, Expired)|
  {
    var mine := FindByTeacher(m, teacher);
    TeacherAndStatusRefinesTeacher(m, teacher, Active);
    TeacherAndStatusRefinesTeacher(m, teacher, Inactive);
    TeacherAndStatusRefinesTeacher(m, teacher, Expired);
    SplitByStatus(mine);
  }

  lemma {:induction false} SplitByStatus(s: seq<NotificationRow>)
    ensures |s| == |Filter(s, WithStatus(Active))| + |Filter(s, WithStatus(Inactive))| + |Filter(s, WithStatus(Expired))|
    decreases |s|
  {
    if s != [] {
      var s', last := s[..|s| - 1], s[|s| - 1];
      assert s == s' + [last];
      SplitByStatus(s');
      FilterSnoc(s', last, WithStatus(Active));
      FilterSnoc(s', last, WithStatus(Inactive));
      FilterSnoc(s', last, WithStatus(Expired));
    }
  }

  /** No row is both upcoming and expired, and a row scheduled exactly at
      `now` is neither. */
  lemma UpcomingExpiredDisjoint(m: map<NotificationId, NotificationRow>, now: Timestamp, n: NotificationRow)
    ensures !(n in FindUpcoming(m, now) && n in FindExpired(m, now))
    ensures n.scheduledAt == now ==> n !in FindUpcoming(m, now) && n !in FindExpired(m, now)
  {
  }
}
