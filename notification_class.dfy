/** The notification_classes entity: one notification sent to one class. */
module NotificationClassModel {
  import opened Common

  /** A persisted association row. Both references and sentAt are NOT NULL
      columns, so a row always names exactly one notification and one class. */
  datatype TargetRow = TargetRow(notification: NotificationId, classId: ClassId, sentAt: Timestamp)

  /** The association entity before it is persisted: every field may still
      be null. */
  class NotificationClass {
    var notification: Option<NotificationId>
    var classObj: Option<ClassId>
    var sentAt: Option<Timestamp>

    constructor ()
      ensures notification.None? && classObj.None? && sentAt.None?
    {
      notification, classObj, sentAt := None, None, None;
    }

    /** The pre-persist hook: fills sentAt with `now` only when it is unset. */
    method OnCreate(now: Timestamp)
      modifies this
      ensures sentAt == if old(sentAt).None? then Some(now) else old(sentAt)
      ensures sentAt.Some?
      ensures notification == old(notification) && classObj == old(classObj)
    {
      if sentAt.None? {
        sentAt := Some(now);
      }
    }

    /** The NOT NULL constraints of the table. */
    predicate Persistable()
      reads this
    {
      notification.Some? && classObj.Some? && sentAt.Some?
    }

    function ToRow(): TargetRow
      reads this
      requires Persistable()
    {
      TargetRow(notification.value, classObj.value, sentAt.value)
    }
  }
}
