/** The class-roster operations: creating, editing and deleting a class, and
    enrolling and unenrolling students, each checked against the class's
    owning teacher. Every operation is one transaction: on an error the
    database is left exactly as it was. */
module Classes {
  import opened Common
  import opened ClassModel
  import opened NotificationClassModel
  import opened Store

  /** The body of a create or update request; any field may be null. */
  datatype ClassRequest = ClassRequest(code: Option<string>, name: Option<string>, description: Option<string>)

  predicate CodeInUse(classes: map<ClassId, ClassRecord>, code: Option<string>) {
    code.Some? && exists k :: k in classes && classes[k].code == code.value
  }

  predicate CodeUsedByOther(classes: map<ClassId, ClassRecord>, classId: ClassId, code: Option<string>) {
    code.Some? && exists k :: k in classes && k != classId && classes[k].code == code.value
  }

  /** The first failure of createClass, in the order the checks run: the
      duplicate code, the unknown teacher, the non-teacher, then the column
      constraints at insert. */
  function CreateClassError(users: map<UserId, User>, classes: map<ClassId, ClassRecord>, request: ClassRequest, teacherId: UserId): (e: Option<Error>)
    ensures e.None? <==>
      !CodeInUse(classes, request.code) && teacherId in users && users[teacherId].role == Teacher && ColumnsFit(request.code, request.name)
    ensures CodeInUse(classes, request.code) ==> e == Some(Conflict)
    ensures e.Some? ==> e.value != InvalidArgument
  {
    if CodeInUse(classes, request.code) then Some(Conflict)
    else if teacherId !in users then Some(NotFound)
    else if users[teacherId].role != Teacher then Some(Forbidden)
    else if !ColumnsFit(request.code, request.name) then Some(ConstraintViolation)
    else None
  }

  /** The first failure of updateClass: the unknown class, the non-owner,
      then the column and unique constraints at commit. */
  function UpdateClassError(classes: map<ClassId, ClassRecord>, classId: ClassId, request: ClassRequest, teacherId: UserId): (e: Option<Error>)
    ensures e.None? <==>
      classId in classes && classes[classId].teacher == teacherId
      && ColumnsFit(request.code, request.name) && !CodeUsedByOther(classes, classId, request.code)
    ensures e == Some(NotFound) <==> classId !in classes
  {
    if classId !in classes then Some(NotFound)
    else if classes[classId].teacher != teacherId then Some(Forbidden)
    else if !ColumnsFit(request.code, request.name) || CodeUsedByOther(classes, classId, request.code) then Some(ConstraintViolation)
    else None
  }

  /** The first failure of deleteClass: the unknown class, the non-owner,
      then the foreign key of any notification association still naming the
      class, which the class does not cascade to. */
  function DeleteClassError(classes: map<ClassId, ClassRecord>, targets: seq<TargetRow>, classId: ClassId, teacherId: UserId): (e: Option<Error>)
    ensures e.None? <==>
      classId in classes && classes[classId].teacher == teacherId && forall t :: t in targets ==> t.classId != classId
    ensures e == Some(NotFound) <==> classId !in classes
  {
    if classId !in classes then Some(NotFound)
    else if classes[classId].teacher != teacherId then Some(Forbidden)
    else if exists t :: t in targets && t.classId == classId then Some(ConstraintViolation)
    else None
  }

  /** The first failure of addStudentToClass: unknown class, unknown
      student, non-owner, already enrolled. */
  function EnrollError(classes: map<ClassId, ClassRecord>, users: map<UserId, User>, enrollments: set<Enrollment>,
                       classId: ClassId, studentId: UserId, teacherId: UserId): (e: Option<Error>)
    ensures e.None? <==>
      classId in classes && studentId in users && classes[classId].teacher == teacherId
      && Enrollment(classId, studentId) !in enrollments
    ensures e == Some(NotFound) <==> classId !in classes || studentId !in users
  {
    if classId !in classes then Some(NotFound)
    else if studentId !in users then Some(NotFound)
    else if classes[classId].teacher != teacherId then Some(Forbidden)
    else if Enrollment(classId, studentId) in enrollments then Some(Conflict)
    else None
  }

  /** The first failure of removeStudentFromClass: unknown class,
      non-owner, no such enrollment. */
  function UnenrollError(classes: map<ClassId, ClassRecord>, enrollments: set<Enrollment>,
                         classId: ClassId, studentId: UserId, teacherId: UserId): (e: Option<Error>)
    ensures e.None? <==>
      classId in classes && classes[classId].teacher == teacherId && Enrollment(classId, studentId) in enrollments
    ensures e == Some(NotFound) <==> classId !in classes || (classes[classId].teacher == teacherId && Enrollment(classId, studentId) !in enrollments)
  {
    if classId !in classes then Some(NotFound)
    else if classes[classId].teacher != teacherId then Some(Forbidden)
    else if Enrollment(classId, studentId) !in enrollments then Some(NotFound)
    else None
  }

  /** The enrollments left when a class is deleted (its class-student rows
      are cascaded away). */
  function WithoutClass(enrollments: set<Enrollment>, classId: ClassId): (r: set<Enrollment>)
    ensures forall e :: e in r <==> e in enrollments && e.classId != classId
  {
    set e | e in enrollments && e.classId != classId
  }

  /** Enrolling a student and then removing the same student restores the
      relation, and the removal is allowed. */
  lemma EnrollThenUnenroll(classes: map<ClassId, ClassRecord>, users: map<UserId, User>, enrollments: set<Enrollment>,
                           classId: ClassId, studentId: UserId, teacherId: UserId)
    requires EnrollError(classes, users, enrollments, classId, studentId, teacherId).None?
    ensures var e := Enrollment(classId, studentId);
      && UnenrollError(classes, enrollments + {e}, classId, studentId, teacherId).None?
      && (enrollments + {e}) - {e} == enrollments
  {
  }

  /** Removing an enrolled student and adding the same student back
      restores the relation, and the re-enrollment is allowed. */
  lemma UnenrollThenEnroll(classes: map<ClassId, ClassRecord>, users: map<UserId, User>, enrollments: set<Enrollment>,
                           classId: ClassId, studentId: UserId, teacherId: UserId)
    requires UnenrollError(classes, enrollments, classId, studentId, teacherId).None?
    requires studentId in users
    ensures var e := Enrollment(classId, studentId);
      && EnrollError(classes, users, enrollments - {e}, classId, studentId, teacherId).None?
      && (enrollments - {e}) + {e} == enrollments
  {
  }

  /** Only the owner can change a class's roster: any request by another
      teacher on an existing class is refused, whatever the student. */
  lemma RosterNeedsOwner(classes: map<ClassId, ClassRecord>, users: map<UserId, User>, enrollments: set<Enrollment>,
                         classId: ClassId, studentId: UserId, teacherId: UserId)
    requires classId in classes && classes[classId].teacher != teacherId
    ensures UnenrollError(classes, enrollments, classId, studentId, teacherId) == Some(Forbidden)
    ensures studentId in users ==> EnrollError(classes, users, enrollments, classId, studentId, teacherId) == Some(Forbidden)
  {
  }

  class ClassService {
    const db: Database

    constructor (db: Database)
      ensures this.db == db
    {
      this.db := db;
    }

    /** createClass: on success the new class is owned by the teacher, has
        a fresh id and the request's fields, and nothing else changes. */
    method CreateClass(request: ClassRequest, teacherId: UserId) returns (r: Result<ClassRecord>)
      requires db.Valid()
      modifies db
      ensures db.Valid()
      ensures var e := CreateClassError(old(db.users), old(db.classes), request, teacherId);
        && (e.Some? ==> r == Err(e.value) && unchanged(db))
        && (e.None? ==> r.Ok?)
      ensures r.Ok? ==>
        && r.value == ClassRecord(old(db.nextClassId), request.code.value, request.name.value, request.description, teacherId)
        && r.value.id !in old(db.classes)
        && db.classes == old(db.classes)[r.value.id := r.value]
        && db.nextClassId == old(db.nextClassId) + 1
        && db.users == old(db.users) && db.enrollments == old(db.enrollments)
        && db.notifications == old(db.notifications) && db.targets == old(db.targets)
        && db.nextNotificationId == old(db.nextNotificationId)
    {
      var e := CreateClassError(db.users, db.classes, request, teacherId);
      if e.Some? {
        return Err(e.value);
      }
      var c := ClassRecord(db.nextClassId, request.code.value, request.name.value, request.description, teacherId);
      db.classes := db.classes[c.id := c];
      db.nextClassId := db.nextClassId + 1;
      r := Ok(c);
    }

    /** updateClass: code, name and description are all overwritten with
        the request's values, nulls included; owner and id are kept. */
    method UpdateClass(classId: ClassId, request: ClassRequest, teacherId: UserId) returns (r: Result<ClassRecord>)
      requires db.Valid()
      modifies db
      ensures db.Valid()
      ensures var e := UpdateClassError(old(db.classes), classId, request, teacherId);
        && (e.Some? ==> r == Err(e.value) && unchanged(db))
        && (e.None? ==> r.Ok?)
      ensures r.Ok? ==>
        && classId in old(db.classes)
        && r.value == old(db.classes)[classId].(code := request.code.value, name := request.name.value, description := request.description)
        && db.classes == old(db.classes)[classId := r.value]
        && db.users == old(db.users) && db.enrollments == old(db.enrollments)
        && db.notifications == old(db.notifications) && db.targets == old(db.targets)
        && db.nextClassId == old(db.nextClassId) && db.nextNotificationId == old(db.nextNotificationId)
    {
      var e := UpdateClassError(db.classes, classId, request, teacherId);
      if e.Some? {
        return Err(e.value);
      }
      var c := db.classes[classId].(code := request.code.value, name := request.name.value, description := request.description);
      db.classes := db.classes[classId := c];
      r := Ok(c);
    }

    /** deleteClass: removes the class and, by cascade, its enrollments. */
    method DeleteClass(classId: ClassId, teacherId: UserId) returns (r: Result<()>)
      requires db.Valid()
      modifies db
      ensures db.Valid()
      ensures var e := DeleteClassError(old(db.classes), old(db.targets), classId, teacherId);
        && (e.Some? ==> r == Err(e.value) && unchanged(db))
        && (e.None? ==> r.Ok?)
      ensures r.Ok? ==>
        && classId in old(db.classes)
        && db.classes == old(db.classes) - {classId}
        && db.enrollments == WithoutClass(old(db.enrollments), classId)
        && db.users == old(db.users)
        && db.notifications == old(db.notifications) && db.targets == old(db.targets)
        && db.nextClassId == old(db.nextClassId) && db.nextNotificationId == old(db.nextNotificationId)
    {
      var e := DeleteClassError(db.classes, db.targets, classId, teacherId);
      if e.Some? {
        return Err(e.value);
      }
      db.classes := db.classes - {classId};
      db.enrollments := WithoutClass(db.enrollments, classId);
      r := Ok(());
    }

    /** addStudentToClass: on success exactly the pair (class, student) is
        added to the enrollment relation. */
    method AddStudentToClass(classId: ClassId, studentId: UserId, teacherId: UserId) returns (r: Result<Enrollment>)
      requires db.Valid()
      modifies db
      ensures db.Valid()
      ensures var e := EnrollError(old(db.classes), old(db.users), old(db.enrollments), classId, studentId, teacherId);
        && (e.Some? ==> r == Err(e.value) && unchanged(db))
        && (e.None? ==> r.Ok?)
      ensures r.Ok? ==>
        && r.value == Enrollment(classId, studentId)
        && r.value !in old(db.enrollments)
        && db.enrollments == old(db.enrollments) + {r.value}
        && db.users == old(db.users) && db.classes == old(db.classes)
        && db.notifications == old(db.notifications) && db.targets == old(db.targets)
        && db.nextClassId == old(db.nextClassId) && db.nextNotificationId == old(db.nextNotificationId)
    {
      var e := EnrollError(db.classes, db.users, db.enrollments, classId, studentId, teacherId);
      if e.Some? {
        return Err(e.value);
      }
      var enrollment := Enrollment(classId, studentId);
      db.enrollments := db.enrollments + {enrollment};
      r := Ok(enrollment);
    }

    /** removeStudentFromClass: on success exactly the pair (class,
        student) is removed from the enrollment relation. */
    method RemoveStudentFromClass(classId: ClassId, studentId: UserId, teacherId: UserId) returns (r: Result<()>)
      requires db.Valid()
      modifies db
      ensures db.Valid()
      ensures var e := UnenrollError(old(db.classes), old(db.enrollments), classId, studentId, teacherId);
        && (e.Some? ==> r == Err(e.value) && unchanged(db))
        && (e.None? ==> r.Ok?)
      ensures r.Ok? ==>
        && Enrollment(classId, studentId) in old(db.enrollments)
        && db.enrollments == old(db.enrollments) - {Enrollment(classId, studentId)}
        && db.users == old(db.users) && db.classes == old(db.classes)
        && db.notifications == old(db.notifications) && db.targets == old(db.targets)
        && db.nextClassId == old(db.nextClassId) && db.nextNotificationId == old(db.nextNotificationId)
    {
      var e := UnenrollError(db.classes, db.enrollments, classId, studentId, teacherId);
      if e.Some? {
        return Err(e.value);
      }
      db.enrollments := db.enrollments - {Enrollment(classId, studentId)};
      r := Ok(());
    }
  }
}
