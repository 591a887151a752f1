/** The notifications entity: its columns, its status and type enumerations,
    its pre-persist defaults, and the list of target associations it owns. */
module NotificationModel {
  import opened Common
  import opened NotificationClassModel

  datatype Status = Active | Inactive | Expired

  /** The entity's `type` column. */
  datatype NotificationType = Schedule | Exam | Other

  /** Length of the title column. */
  const MaxTitleLength := 500

  predicate TitleFits(title: string) {
    |title| <= MaxTitleLength
  }

  /** A persisted notifications row. Every column is NOT NULL, and the two
      enumerations are closed, so a row always has one of the three statuses
      and one of the three types. */
  datatype NotificationRow = NotificationRow(
    id: NotificationId,
    teacher: UserId,
    title: string,
    content: string,
    createdAt: Timestamp,
    scheduledAt: Timestamp,
    status: Status,
    kind: NotificationType)

  /** The table is keyed by the rows' own ids. */
  predicate KeyedById(m: map<NotificationId, NotificationRow>) {
    forall k :: k in m ==> m[k].id == k
  }

  /** The notification entity as the service builds it: every field may be
      null until the pre-persist hook and the column constraints apply.
      `targetClasses` is the owned (cascade, orphan-removal) association
      list, which starts out as an empty list. */
  class Notification {
    var id: Option<NotificationId>
    var teacher: Option<User>
    var title: Option<string>
    var content: Option<string>
    var createdAt: Option<Timestamp>
    var scheduledAt: Option<Timestamp>
    var status: Option<Status>
    var kind: Option<NotificationType>
    var targetClasses: Option<seq<TargetRow>>

    constructor ()
      ensures id.None? && teacher.None? && title.None? && content.None?
      ensures createdAt.None? && scheduledAt.None? && status.None? && kind.None?
      ensures targetClasses == Some([])
    {
      id, teacher, title, content := None, None, None, None;
      createdAt, scheduledAt, status, kind := None, None, None, None;
      targetClasses := Some([]);
    }

    /** The pre-persist hook: createdAt is always `now`; scheduledAt and
        status get `now` and ACTIVE only when they are unset. */
    method OnCreate(now: Timestamp)
      modifies this
      ensures createdAt == Some(now)
      ensures scheduledAt == if old(scheduledAt).None? then Some(now) else old(scheduledAt)
      ensures status == if old(status).None? then Some(Active) else old(status)
      ensures id == old(id) && teacher == old(teacher) && title == old(title)
      ensures content == old(content) && kind == old(kind)
      ensures targetClasses == old(targetClasses)
    {
      createdAt := Some(now);
      if scheduledAt.None? {
        scheduledAt := Some(now);
      }
      if status.None? {
        status := Some(Active);
      }
    }

    /** The NOT NULL and length constraints of the notifications table. */
    predicate Persistable()
      reads this
    {
      && teacher.Some? && title.Some? && content.Some?
      && createdAt.Some? && scheduledAt.Some? && status.Some? && kind.Some?
      && TitleFits(title.value)
    }

    /** The row this entity is stored as, once it has an id. */
    function ToRow(): NotificationRow
      reads this
      requires Persistable() && id.Some?
    {
      NotificationRow(id.value, teacher.value.id, title.value, content.value,
                      createdAt.value, scheduledAt.value, status.value, kind.value)
    }
  }
}
