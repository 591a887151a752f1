/** The database the two services work on: the users, classes, enrollments,
    notifications and notification-class tables, with the identity counters
    of the generated keys and the integrity constraints the schema enforces. */
module Store {
  import opened Common
  import opened ClassModel
  import opened NotificationModel
  import opened NotificationClassModel

  predicate UsersValid(users: map<UserId, User>) {
    forall k :: k in users ==> users[k].id == k
  }

  /** Class codes are unique (the unique constraint on classCode). */
  predicate CodesUnique(classes: map<ClassId, ClassRecord>) {
    forall a, b :: a in classes && b in classes && a != b ==> classes[a].code != classes[b].code
  }

  predicate ClassesValid(classes: map<ClassId, ClassRecord>, users: map<UserId, User>, nextClassId: ClassId) {
    && (forall k :: k in classes ==> classes[k].id == k && k < nextClassId)
    && (forall k :: k in classes ==> classes[k].teacher in users)
    && (forall k :: k in classes ==> ColumnsFit(Some(classes[k].code), Some(classes[k].name)))
    && CodesUnique(classes)
  }

  predicate EnrollmentsValid(enrollments: set<Enrollment>, classes: map<ClassId, ClassRecord>, users: map<UserId, User>) {
    forall e :: e in enrollments ==> e.classId in classes && e.studentId in users
  }

  predicate NotificationsValid(m: map<NotificationId, NotificationRow>, users: map<UserId, User>, nextId: NotificationId) {
    && KeyedById(m)
    && (forall k :: k in m ==> k < nextId && m[k].teacher in users && TitleFits(m[k].title))
  }

  /** Every association references an existing notification and an
      existing class (the two foreign keys). */
  predicate TargetsValid(targets: seq<TargetRow>, m: map<NotificationId, NotificationRow>, classes: map<ClassId, ClassRecord>) {
    forall t :: t in targets ==> t.notification in m && t.classId in classes
  }

  class Database {
    var users: map<UserId, User>
    var classes: map<ClassId, ClassRecord>
    var enrollments: set<Enrollment>
    var notifications: map<NotificationId, NotificationRow>
    var targets: seq<TargetRow>
    var nextClassId: ClassId
    var nextNotificationId: NotificationId

    predicate Valid()
      reads this
    {
      && UsersValid(users)
      && ClassesValid(classes, users, nextClassId)
      && EnrollmentsValid(enrollments, classes, users)
      && NotificationsValid(notifications, users, nextNotificationId)
      && TargetsValid(targets, notifications, classes)
    }

    /** An empty school over a fixed set of registered users. */
    constructor (users: map<UserId, User>)
      requires UsersValid(users)
      ensures Valid()
      ensures this.users == users && classes == map[] && enrollments == {}
      ensures notifications == map[] && targets == []
    {
      this.users := users;
      classes, enrollments := map[], {};
      notifications, targets := map[], [];
      nextClassId, nextNotificationId := 0, 0;
    }
  }
}
