/** The class records the notification core reads: a class with its unique
    code and its owning teacher, and the class-student enrollment link. */
module ClassModel {
  import opened Common

  /** Column lengths of the classes table. */
  const MaxCodeLength := 50
  const MaxNameLength := 255

  /** A classes row. */
  datatype ClassRecord = ClassRecord(
    id: ClassId,
    code: string,
    name: string,
    description: Option<string>,
    teacher: UserId)

  /** A class_students row: `studentId` is enrolled in `classId`. */
  datatype Enrollment = Enrollment(classId: ClassId, studentId: UserId)

  /** The NOT NULL and length constraints on a class's code and name. */
  predicate ColumnsFit(code: Option<string>, name: Option<string>) {
    && code.Some? && |code.value| <= MaxCodeLength
    && name.Some? && |name.value| <= MaxNameLength
  }
}
