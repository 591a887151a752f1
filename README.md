# School notifications: a verified model

This project models the notification core of a school backend (a Spring/JPA
service). The model covers:

- **Authoring.** Teachers write notifications and target them at the classes
  they own. They can edit, re-target and delete them.
- **Expiry sweep.** It turns overdue ACTIVE notifications into EXPIRED ones.
- **Read paths.** A student's feed is resolved through the classes the student
  is enrolled in. A class has a page of recent notifications, and a teacher has
  statistics.
- **Class rosters.** The feed depends on the class-roster operations: creating,
  editing and deleting classes, and enrolling and unenrolling students.

The project has these modules:

| module | file | what it holds |
|---|---|---|
| `Common` | common.dfy | identifiers, integer timestamps, users, `Option`/`Result`, and the error kinds the services raise |
| `Ordering` | ordering.dfy | filtering, the stable descending insertion sort used for every `ORDER BY`, de-duplication, paging, and the scan order the model fixes for a table: primary-key order, with an `ORDER BY` as a stable sort of that scan |
| `ClassModel` | class_model.dfy | the class record, its column limits, and the enrollment link |
| `NotificationClassModel` | notification_class.dfy | the notification-to-class association: a row datatype, plus a class for the entity with its pre-persist hook |
| `NotificationModel` | notification.dfy | the notification: its row, its closed status and type enumerations, and the entity class with its pre-persist hook |
| `NotificationRepository`, `NotificationClassRepository` | notification_repository.dfy, notification_class_repository.dfy | the derived and JPQL queries as functions over the tables |
| `NotificationDto` | notification_dto.dfy | the response and summary projections, including the 100-character content preview |
| `Store` | store.dfy | the `Database` class holding every table and the integrity constraints of the schema |
| `Classes` | class_service.dfy | the class service |
| `Notifications` | notification_service.dfy | the notification service |

How the Java maps onto the model:

- Each `@Transactional` service method is a method on a service class holding
  the database. It works on local copies and writes the tables at the end.
  Every thrown `RuntimeException` becomes `Err(kind)`, and an `Err` leaves the
  database unchanged, which stands for the rollback.
- The clock (`LocalDateTime.now()`) is the parameter `now`.
- A `Pageable` of the first page is an integer limit.
- Entity identity is the row's id.

## Model

| member | source | states |
|---|---|---|
| `Notifications.TargetCheck` | backend/src/main/java/com/example/backend/Service/NotificationService.java:64-71 | The class loop succeeds exactly when every listed class exists and is owned by the author. A NotFound result has a listed class that does not exist; a Forbidden result has a listed class owned by someone else. |
| `Notifications.NewTargets` | backend/src/main/java/com/example/backend/Service/NotificationService.java:73-77 | The loop saves one association per listed class, in list order and repetitions included, each naming the notification, that class and the send time. |
| `Notifications.WithoutNotification` | backend/src/main/java/com/example/backend/Service/NotificationService.java:114-115 | Deleting a notification's associations keeps exactly the associations of the other notifications. |
| `Notifications.ReplaceSetsTargets` | backend/src/main/java/com/example/backend/Service/NotificationService.java:112-133 | After re-targeting, findByNotification returns exactly one association per listed class, in list order, so its class ids are the request's list. |
| `Notifications.ReplaceKeepsOthers` | backend/src/main/java/com/example/backend/Service/NotificationService.java:112-133 | Re-targeting one notification leaves every other notification's associations as they were. |
| `Notifications.FreshTargetsReplace` | backend/src/main/java/com/example/backend/Service/NotificationService.java:61-78 | A new notification has no associations yet, so appending its new associations equals re-targeting it. |
| `Notifications.DeleteCascades` | backend/src/main/java/com/example/backend/Model/Notification.java:49-50 | Deleting a notification removes all of its associations (cascade ALL, orphan removal) and no association of any other notification. |
| `Notifications.CreateRequirements` | backend/src/main/java/com/example/backend/Service/NotificationService.java:39-50 | Create succeeds if and only if: the author exists and is a TEACHER; the class list is present and non-empty; title and content are present and the title fits its 500-character column; and every listed class is the author's. An unknown author gives NotFound, a non-teacher Forbidden, and a missing or empty class list InvalidArgument. |
| `Notifications.ApplyUpdate` | backend/src/main/java/com/example/backend/Service/NotificationService.java:95-109 | Each of title, content, scheduledAt, status and type takes the request's value when it is non-null and keeps the old value otherwise. Id, author and createdAt never change. |
| `Notifications.UpdateIdempotent` | backend/src/main/java/com/example/backend/Service/NotificationService.java:95-109 | Applying the same partial update twice is the same as applying it once, and an update with every field null changes nothing. |
| `Notifications.NonAuthorRefused` | backend/src/main/java/com/example/backend/Service/NotificationService.java:86-92 | On an existing notification, any update by a requester who is not the author is Forbidden, whatever the request contains. The same holds for delete (lines 141-147). |
| `Notifications.Swept` | backend/src/main/java/com/example/backend/Service/NotificationService.java:214-220 | The sweep keeps the same set of notifications. A notification becomes EXPIRED exactly when it was ACTIVE with scheduledAt < now; every other status and every other field is unchanged. |
| `Notifications.SweepIdempotent` | backend/src/main/java/com/example/backend/Service/NotificationService.java:214-220 | A second sweep at the same instant changes nothing. |
| `Notifications.SweepMonotone` | backend/src/main/java/com/example/backend/Service/NotificationService.java:214-220 | A sweep at a later instant absorbs one at an earlier instant. |
| `Notifications.SweepLeavesNothingDue` | backend/src/main/java/com/example/backend/Service/NotificationService.java:214-220 | After a sweep, findExpiredNotifications at the same instant returns nothing. |
| `Notifications.ExpireDueSweeps` | backend/src/main/java/com/example/backend/Service/NotificationService.java:214-218 | Setting EXPIRED, one row after another, on exactly the rows findExpiredNotifications returns gives the sweep. |
| `Notifications.SweepKeepsValid` | backend/src/main/java/com/example/backend/Service/NotificationService.java:214-220 | The sweep preserves the notification and association constraints. |
| `Notifications.Owners` | backend/src/main/java/com/example/backend/Service/NotificationService.java:191-192 | Mapping associations to their notifications keeps length and order, and position i holds the notification of association i. |
| `Notifications.OwnersSorted` | backend/src/main/java/com/example/backend/Service/NotificationService.java:203-208 | Associations ordered by their notification's createdAt (descending) map to notifications ordered by createdAt (descending). |
| `Notifications.NotificationsForStudent` | backend/src/main/java/com/example/backend/Service/NotificationService.java:175-195 | An unknown student gives NotFound, and only then is there an error. A student with no classes gets an empty feed. The feed holds no duplicates and is sorted by createdAt, newest first. A notification is in it if and only if an association links it to one of the student's classes. |
| `Notifications.FeedIdsDistinct` | backend/src/main/java/com/example/backend/Service/NotificationService.java:191-195 | No two feed entries carry the same notification id. |
| `Notifications.RecentNotificationsForClass` | backend/src/main/java/com/example/backend/Service/NotificationService.java:200-208 | A page size below 1 gives InvalidArgument, and only then is there an error. The result has min(limit, number of the class's associations) entries, newest first. It is a prefix of the notifications of the class's full newest-first association list, so it holds the newest ones. Each entry is the notification of an association to that class. |
| `Notifications.NotificationStatistics` | backend/src/main/java/com/example/backend/Service/NotificationService.java:225-241 | An unknown teacher gives NotFound, and only then is there an error. The total is the length of the teacher's list. active and expired are the lengths of the teacher's ACTIVE and EXPIRED lists. inactive is total − active − expired, and it equals the number of INACTIVE notifications and so is never negative. |
| `Notifications.NewTargetsMembership` | backend/src/main/java/com/example/backend/Service/NotificationService.java:73-77 | An association is among those the loop saves exactly when it names the notification, one of the listed classes and the send time. |
| `Notifications.ReplaceTargets` | backend/src/main/java/com/example/backend/Service/NotificationService.java:112-133 | After re-targeting, the table holds the other notifications' associations plus one per listed class, so its length is theirs plus the list's. An association is in it exactly when it belongs to another notification, or names this notification, a listed class and the send time. |
| `Notifications.CreateError` | backend/src/main/java/com/example/backend/Service/NotificationService.java:39-71 | InvalidArgument only for a missing or empty class list. ConstraintViolation only for a missing title or content or an overlong title. Forbidden only for a non-teacher author or a listed class owned by someone else. Create never raises Conflict. |
| `Notifications.UpdateError` | backend/src/main/java/com/example/backend/Service/NotificationService.java:85-133 | No failure exactly when the notification exists, the requester is its author, every listed class (if a list is given) is the author's, and the updated title fits its column. ConstraintViolation only for an overlong updated title. Update never raises InvalidArgument or Conflict. |
| `Notifications.DeleteError` | backend/src/main/java/com/example/backend/Service/NotificationService.java:140-147 | No failure exactly when the notification exists and the requester is its author. NotFound exactly when it does not exist. |
| `Notifications.ExpireIfDue` | backend/src/main/java/com/example/backend/Service/NotificationService.java:216-217 | Only the status can change. It changes exactly when the row is ACTIVE and scheduled before now, and then it becomes EXPIRED. |
| `Notifications.StudentClassIds` | backend/src/main/java/com/example/backend/Service/NotificationService.java:180-182 | A class id is among the student's classes exactly when the student is enrolled in that class. |
| `Notifications.NotificationService.BuildTargets` | backend/src/main/java/com/example/backend/Service/NotificationService.java:64-78 | The loop returns the first NotFound or Forbidden class failure; otherwise it returns one association per listed class, built through the association entity and its pre-persist hook. |
| `Notifications.NotificationService.NewAssociation` | backend/src/main/java/com/example/backend/Service/NotificationService.java:73-77 | The association built in the loop, through the entity and its pre-persist hook, names the notification, the class and the send time now. |
| `Notifications.NotificationService.NewEntity` | backend/src/main/java/com/example/backend/Service/NotificationService.java:53-58 | The entity built from the request is new, with no id. It has the request's title and content, the author as teacher, and scheduledAt and type defaulted to now and OTHER. After the pre-persist hook, createdAt is now, the status is ACTIVE and the association list is empty. |
| `Notifications.NotificationService.Insert` | backend/src/main/java/com/example/backend/Service/NotificationService.java:61-77 | Stores the new row under the next generated key and appends its associations. No other table changes, and the database stays valid. |
| `Notifications.NotificationService.CreateNotificationAsWritten` | backend/src/main/java/com/example/backend/Service/NotificationService.java:38-80 | On a failure the result is CreateError's failure and nothing is stored. On success: the stored row has the request's title and content; scheduledAt and type default to now and OTHER; createdAt is now and the status is ACTIVE. One association per listed class is added. The returned entity's own association list is empty, so its response reports 0 classes. |
| `Notifications.NotificationService.CreateNotification` | backend/src/main/java/com/example/backend/Service/NotificationService.java:38-80 | Has the same failures and the same stored state as the as-written method. In addition, the returned entity lists its saved associations, so its response names exactly the requested classes and reports their number. |
| `Notifications.NotificationService.UpdateNotification` | backend/src/main/java/com/example/backend/Service/NotificationService.java:85-135 | The failures are, in order: NotFound, Forbidden, then (when a class list is given) the class loop's NotFound or Forbidden, and last the title-length ConstraintViolation raised when the changed row is written at the final save and commit. Each leaves the database unchanged. On success the row is the partial update of the old row. A non-null class list, even an empty one, replaces the notification's associations; a null list leaves them unchanged. No other table changes. |
| `Notifications.NotificationService.DeleteNotification` | backend/src/main/java/com/example/backend/Service/NotificationService.java:140-149 | NotFound or Forbidden leaves the database unchanged. On success the notification and exactly its associations are removed. |
| `Notifications.NotificationService.ExpireRows` | backend/src/main/java/com/example/backend/Service/NotificationService.java:216-218 | The loop sets each row it was handed to EXPIRED, in order. |
| `Notifications.NotificationService.SaveRows` | backend/src/main/java/com/example/backend/Service/NotificationService.java:220 | `saveAll` of the changed rows: the notifications table becomes the given table, which must keep the table constraints. Every other table and counter is unchanged, and the database stays valid. |
| `Notifications.NotificationService.MarkExpiredNotifications` | backend/src/main/java/com/example/backend/Service/NotificationService.java:213-221 | After the call the notifications table is the sweep of the old table at now. Nothing else changes, and the database stays valid. |
| `NotificationModel.Notification.constructor` | backend/src/main/java/com/example/backend/Model/Notification.java:49-50 | A new entity has every column null and an empty association list. |
| `NotificationModel.Notification.OnCreate` | backend/src/main/java/com/example/backend/Model/Notification.java:52-61 | createdAt is always set to now. scheduledAt and status are set to now and ACTIVE only when null; a preset value is kept. No other field changes. |
| `NotificationClassModel.NotificationClass.constructor` | backend/src/main/java/com/example/backend/Model/NotificationClass.java:20-29 | A new association entity has notification, class and sentAt all null. |
| `NotificationClassModel.NotificationClass.OnCreate` | backend/src/main/java/com/example/backend/Model/NotificationClass.java:31-36 | sentAt is filled with now only when it is absent, so it is non-null afterwards; notification and class are unchanged. |
| `NotificationRepository.FindByTeacher` | backend/src/main/java/com/example/backend/Repository/NotificationRepository.java:17 | Returns exactly the teacher's notifications, ordered by createdAt descending. |
| `NotificationRepository.FindByStatus` | backend/src/main/java/com/example/backend/Repository/NotificationRepository.java:20 | A notification is in the result exactly when it has that status. The result is ordered by createdAt descending. |
| `NotificationRepository.StatusCount` | backend/src/main/java/com/example/backend/Repository/NotificationRepository.java:20 | The result's length is the number of notifications with that status, so each appears once. |
| `NotificationRepository.FindByTeacherAndStatus` | backend/src/main/java/com/example/backend/Repository/NotificationRepository.java:23 | Returns exactly the teacher's notifications with that status, ordered by createdAt descending. |
| `NotificationRepository.TeacherAndStatusRefinesTeacher` | backend/src/main/java/com/example/backend/Repository/NotificationRepository.java:23 | The teacher-and-status list is the subsequence of the teacher's list with that status. |
| `NotificationRepository.FindUpcoming` | backend/src/main/java/com/example/backend/Repository/NotificationRepository.java:26-27 | A notification is in the result exactly when it is ACTIVE and scheduled after now. The result is ordered by scheduledAt ascending. |
| `NotificationRepository.UpcomingCount` | backend/src/main/java/com/example/backend/Repository/NotificationRepository.java:26-27 | The result's length is the number of ACTIVE notifications scheduled after now, so each appears once. |
| `NotificationRepository.FindExpired` | backend/src/main/java/com/example/backend/Repository/NotificationRepository.java:30-31 | A notification is in the result exactly when it is ACTIVE and scheduled before now. |
| `NotificationRepository.ExpiredCount` | backend/src/main/java/com/example/backend/Repository/NotificationRepository.java:30-31 | The result's length is the number of ACTIVE notifications scheduled before now, so each appears once and the sweep visits each due row once. |
| `NotificationRepository.UpcomingExpiredDisjoint` | backend/src/main/java/com/example/backend/Repository/NotificationRepository.java:26-31 | No notification is both upcoming and expired, and one scheduled exactly at now is neither. |
| `NotificationRepository.CountByTeacher` | backend/src/main/java/com/example/backend/Repository/NotificationRepository.java:34 | countByTeacher equals the length of the teacher's list. |
| `NotificationRepository.StatusPartition` | backend/src/main/java/com/example/backend/Service/NotificationService.java:229-239 | A teacher's list splits exactly into its ACTIVE, INACTIVE and EXPIRED sublists, so the three lengths add up to the total. |
| `NotificationClassRepository.FindByClass` | backend/src/main/java/com/example/backend/Repository/NotificationClassRepository.java:18 | Returns all and only the associations of the class, each as often as it occurs in the table. |
| `NotificationClassRepository.FindByNotification` | backend/src/main/java/com/example/backend/Repository/NotificationClassRepository.java:21 | Returns all and only the associations of the notification. |
| `NotificationClassRepository.FindByNotificationCounts` | backend/src/main/java/com/example/backend/Repository/NotificationClassRepository.java:21 | Each association of the notification occurs in the result as often as in the table, and no other association occurs. |
| `NotificationClassRepository.FindByClassIds` | backend/src/main/java/com/example/backend/Repository/NotificationClassRepository.java:24-25 | Returns exactly the associations whose class is listed and whose notification exists (the inner join), each as often as it occurs in the table. Repeated class ids repeat nothing. The result is ordered by the notification's createdAt, descending. |
| `NotificationClassRepository.SameClassesSameResult` | backend/src/main/java/com/example/backend/Repository/NotificationClassRepository.java:24-25 | The result depends only on which classes are listed, not on their order or repetition. |
| `NotificationClassRepository.FindRecentByClass` | backend/src/main/java/com/example/backend/Repository/NotificationClassRepository.java:28-29 | Returns the first page of the class's associations, newest notification first: a prefix of the full ordered result, with at most the page size entries. The page is shorter only when the whole result fits. |
| `NotificationDto.ContentPreview` | backend/src/main/java/com/example/backend/DTO/NotificationDTO.java:95-99 | Content longer than 100 characters becomes its first 100 characters plus "...", which is 103 characters. Shorter content, or null, is passed on unchanged. A preview never exceeds 103 characters. |
| `NotificationDto.PreviewIdempotent` | backend/src/main/java/com/example/backend/DTO/NotificationDTO.java:95-99 | Previewing a preview changes nothing. |
| `NotificationDto.ResponseFromEntity` | backend/src/main/java/com/example/backend/DTO/NotificationDTO.java:47-73 | The class list is present exactly when the entity's association list is. It then has the same length and order, holding each association's class, and totalClasses is its length. A null list gives 0. The teacher is present exactly when the entity has one. |
| `NotificationDto.ResponseCopiesEntity` | backend/src/main/java/com/example/backend/DTO/NotificationDTO.java:47-73 | The response's id, title, content, createdAt, scheduledAt, status, type and teacher are the entity's own. |
| `NotificationDto.SummaryFromEntity` | backend/src/main/java/com/example/backend/DTO/NotificationDTO.java:89-117 | Id, title, createdAt, scheduledAt, status and type are the entity's own. The preview is the preview of the entity's content, at most 103 characters. teacherName is set exactly when the entity has a teacher, and is then that teacher's full name. totalClasses is the length of the association list, or 0 for a null list. |
| `NotificationDto.SummaryAgreesWithResponse` | backend/src/main/java/com/example/backend/DTO/NotificationDTO.java:89-117 | The summary and the response of the same entity agree: the same id, title, createdAt, scheduledAt, status, type and totalClasses. Its preview is the preview of the content. teacherName is set exactly when a teacher is present, and is then that teacher's name. |
| `Classes.WithoutClass` | backend/src/main/java/com/example/backend/Service/ClassService.java:87 | Deleting a class removes exactly its enrollments (the cascade on classStudents). |
| `Classes.EnrollThenUnenroll` | backend/src/main/java/com/example/backend/Service/ClassService.java:105-133 | After an allowed enrollment, removing the same student is allowed and restores the original enrollment relation. |
| `Classes.UnenrollThenEnroll` | backend/src/main/java/com/example/backend/Service/ClassService.java:105-133 | After an allowed removal, re-adding the same existing student is allowed and restores the original enrollment relation. |
| `Classes.RosterNeedsOwner` | backend/src/main/java/com/example/backend/Service/ClassService.java:99-127 | On an existing class, any roster change by a teacher who does not own it is Forbidden. |
| `Classes.CreateClassError` | backend/src/main/java/com/example/backend/Service/ClassService.java:33-55 | No failure exactly when the code is not in use, the teacher exists and is a TEACHER, and code and name fit their columns. A code in use always gives Conflict. Create never raises InvalidArgument. |
| `Classes.UpdateClassError` | backend/src/main/java/com/example/backend/Service/ClassService.java:59-74 | No failure exactly when the class exists, the requester owns it, code and name fit, and no other class has the code. NotFound exactly when the class does not exist. |
| `Classes.DeleteClassError` | backend/src/main/java/com/example/backend/Service/ClassService.java:78-88 | No failure exactly when the class exists, the requester owns it, and no notification targets it. NotFound exactly when the class does not exist. |
| `Classes.EnrollError` | backend/src/main/java/com/example/backend/Service/ClassService.java:92-116 | No failure exactly when class and student exist, the requester owns the class, and the student is not yet enrolled. NotFound exactly when the class or the student is unknown. |
| `Classes.UnenrollError` | backend/src/main/java/com/example/backend/Service/ClassService.java:120-134 | No failure exactly when the class exists, the requester owns it, and the student is enrolled. NotFound exactly when the class is unknown, or the owner asks for a student who is not enrolled. |
| `Classes.ClassService.CreateClass` | backend/src/main/java/com/example/backend/Service/ClassService.java:33-55 | The failures are, in order: Conflict for a code already in use, NotFound for an unknown teacher, Forbidden for a non-teacher, then ConstraintViolation for a missing or overlong code or name. Each leaves the database unchanged. On success a class with a fresh id, the request's fields and that teacher as owner is added, and nothing else changes. |
| `Classes.ClassService.UpdateClass` | backend/src/main/java/com/example/backend/Service/ClassService.java:59-74 | The failures are NotFound, Forbidden, then a column or unique-code ConstraintViolation; each leaves the database unchanged. On success code, name and description are all overwritten, nulls included, and id and owner are kept. |
| `Classes.ClassService.DeleteClass` | backend/src/main/java/com/example/backend/Service/ClassService.java:78-88 | NotFound, Forbidden, or a ConstraintViolation while a notification still targets the class each leave the database unchanged. On success the class and its enrollments are removed. |
| `Classes.ClassService.AddStudentToClass` | backend/src/main/java/com/example/backend/Service/ClassService.java:92-116 | Fails for an unknown class, an unknown student, a non-owner, or an existing enrollment, checked in that order, and leaves the database unchanged. On success exactly the pair (class, student) is added. |
| `Classes.ClassService.RemoveStudentFromClass` | backend/src/main/java/com/example/backend/Service/ClassService.java:120-134 | Fails for an unknown class, a non-owner, or a student who is not enrolled, and leaves the database unchanged. On success exactly that pair is removed. |

## Findings

| source | as written | input that shows it | evidently intended | confidence | as-written member | corrected member |
|---|---|---|---|---|---|---|
| backend/src/main/java/com/example/backend/Service/NotificationService.java:61-80 | `createNotification` saves each association through the association repository, but never adds it to the returned entity's `targetClasses`. That list stays empty, so `NotificationResponse.fromEntity` (NotificationDTO.java:63-70) reports no target classes and `totalClasses` 0. | any successful create, e.g. classIds `[c]` for a class `c` the author owns | the response of a freshly created notification lists its classes and reports `totalClasses == |classIds|` | not executed | `Notifications.NotificationService.CreateNotificationAsWritten` | `Notifications.NotificationService.CreateNotification` |

## Left out

- getNotificationById, getNotificationsByTeacher and getNotificationsByStatus (NotificationService.java:152-171) are direct calls to `findById` and to the two repository queries. Those queries are modelled as `FindByTeacher` and `FindByStatus`.
- The class service's read operations (from ClassService.java:136 on), the controllers, UserService and the DTOs other than NotificationDTO are not part of this model.
- UserDTO and ClassSimpleDTO are not part of this model. A response carries the user record for its teacher and the class id for each target class.
- `LocalDateTime.now()` is the parameter `now`, read once per call. The source reads the clock separately at create (line 57 and the pre-persist hook), and those readings may differ by the time between them.
- Paging: only the first page (`PageRequest.of(0, limit)`) is modelled, as an integer limit. `PageRequest.of` rejects a size below 1, which is the InvalidArgument case.
- Integers are unbounded. The `Long` statistics and identity counters cannot overflow in the model.
- Generated identity values are not consumed by a rolled-back insert. A database may leave such gaps; the model does not.
- Flush timing: an update's title-length violation is raised at the final save and commit, after the class loop. Hibernate may flush the changed row earlier, before a query in the same transaction, which would raise the violation before a class failure. The model does not follow the flush schedule.
- String lengths count characters, where Java counts UTF-16 code units.
- Lazy loading and the merge and persist cascades are not modelled. The association list of a loaded notification is not a field of the row; it is `FindByNotification` over the association table.
- The order of a student's enrollment rows is not modelled. The class ids are taken in ascending order, and `SameClassesSameResult` shows that the order does not change the feed.
- Lombok's generated `equals` on entities is taken as equality of the stored rows. The feed's `distinct()` therefore compares rows, and `FeedIdsDistinct` shows that no id repeats.
- Title and content are expected to be non-empty, but the code does not check it: it accepts an empty string and rejects only null, through the NOT NULL columns. The model follows the code.
- A failing row was expected not to stop the sweep, but the code saves all expired rows in one transaction. The model follows the code.
- A null id inside a request's class list (`List<Long> classIds`, NotificationDTO.java:19 and 30) cannot be written in the model, whose class ids are natural numbers. The source fails on it at `findById` inside the class loop (NotificationService.java:65 and 119), and the transaction rolls back.
- Concurrency between transactions is not modelled; each call runs alone.
- `NotificationRepository.TeacherAndStatusRefinesTeacher`: rows with equal createdAt keep primary-key order in the model. SQL leaves the order of such ties to the database, which may order them differently in the two queries.
- `NotificationRepository.FindExpired`: a query without an `ORDER BY` returns its rows in primary-key order in the model. The database may return them in any order; only the order of the sweep's updates depends on it.
- `Notifications.NotificationsForStudent`: ties on createdAt keep the order of the association query, which the model fixes to primary-key order. The database may order such ties differently.
- `Classes.ClassService.CreateClass`: class codes are compared exactly. Under SQL Server's default case-insensitive collation, `existsByClassCode` and the unique index also match codes that differ only in letter case or trailing blanks.
- `Classes.ClassService.UpdateClass`: class codes are compared exactly, for the unique index too. SQL Server's default collation may treat codes that differ only in letter case or trailing blanks as equal.
