/** The response shapes built from a notification entity: the full response
    and the list summary with its content preview. */
module NotificationDto {
  import opened Common
  import opened NotificationModel
  import opened NotificationClassModel

  /** Characters kept by the preview, and the marker appended to a cut. */
  const PreviewLength := 100
  const Ellipsis := "..."

  /** The summary's content preview: content longer than 100 characters is
      cut to its first 100 followed by "..."; anything else, including a
      missing content, is passed on unchanged. */
  function ContentPreview(content: Option<string>): (r: Option<string>)
    ensures r.Some? <==> content.Some?
    ensures content.Some? && |content.value| <= PreviewLength ==> r == content
    ensures content.Some? && |content.value| > PreviewLength ==>
              && |r.value| == PreviewLength + |Ellipsis|
              && r.value == content.value[..PreviewLength] + Ellipsis
    ensures r.Some? ==> |r.value| <= PreviewLength + |Ellipsis|
  {
    if content.Some? && |content.value| > PreviewLength
    then Some(content.value[..PreviewLength] + Ellipsis)
    else content
  }

  /** A preview of a preview adds no second cut: 103 characters are cut
      again to the same 100 plus "...". */
  lemma PreviewIdempotent(content: Option<string>)
    ensures ContentPreview(ContentPreview(content)) == ContentPreview(content)
  {
    if content.Some? && |content.value| > PreviewLength {
      var p := content.value[..PreviewLength] + Ellipsis;
      assert p[..PreviewLength] == content.value[..PreviewLength];
    }
  }

  /** The full response. The teacher is the user record and each target
      class is given by its id; both are reduced forms of nested DTOs. */
  datatype NotificationResponse = NotificationResponse(
    notificationId: Option<NotificationId>,
    title: Option<string>,
    content: Option<string>,
    createdAt: Option<Timestamp>,
    scheduledAt: Option<Timestamp>,
    status: Option<Status>,
    kind: Option<NotificationType>,
    teacher: Option<User>,
    targetClasses: Option<seq<ClassId>>,
    totalClasses: int)

  /** The list summary. */
  datatype NotificationSummary = NotificationSummary(
    notificationId: Option<NotificationId>,
    title: Option<string>,
    contentPreview: Option<string>,
    createdAt: Option<Timestamp>,
    scheduledAt: Option<Timestamp>,
    status: Option<Status>,
    kind: Option<NotificationType>,
    teacherName: Option<string>,
    totalClasses: int)

  function ClassIdsOf(ts: seq<TargetRow>): (r: seq<ClassId>)
    ensures |r| == |ts|
    ensures forall i :: 0 <= i < |ts| ==> r[i] == ts[i].classId
  {
    if ts == [] then [] else ClassIdsOf(ts[..|ts| - 1]) + [ts[|ts| - 1].classId]
  }

  /** NotificationResponse.fromEntity. The class list and the class count
      describe the same association list, and a missing list counts 0. */
  function ResponseFromEntity(n: Notification): (r: NotificationResponse)
    reads n
    ensures r.targetClasses.Some? <==> n.targetClasses.Some?
    ensures r.targetClasses.Some? ==> r.totalClasses == |r.targetClasses.value|
    ensures r.targetClasses.Some? ==> |r.targetClasses.value| == |n.targetClasses.value|
    ensures r.targetClasses.Some? ==> forall i :: 0 <= i < |n.targetClasses.value| ==>
              r.targetClasses.value[i] == n.targetClasses.value[i].classId
    ensures r.targetClasses.None? ==> r.totalClasses == 0
    ensures r.totalClasses >= 0
    ensures r.teacher.Some? <==> n.teacher.Some?
  {
    NotificationResponse(
      n.id, n.title, n.content, n.createdAt, n.scheduledAt, n.status, n.kind,
      n.teacher,
      if n.targetClasses.Some? then Some(ClassIdsOf(n.targetClasses.value)) else None,
      if n.targetClasses.Some? then |n.targetClasses.value| else 0)
  }

  /** The response copies the entity's own columns and its teacher. */
  lemma ResponseCopiesEntity(n: Notification)
    ensures var r := ResponseFromEntity(n);
      && r.notificationId == n.id && r.title == n.title && r.content == n.content
      && r.createdAt == n.createdAt && r.scheduledAt == n.scheduledAt
      && r.status == n.status && r.kind == n.kind && r.teacher == n.teacher
  {
  }

  /** The response of an entity with association list `ts` names the
      classes of `ts`, in order, and counts them. */
  lemma ResponseListsClasses(n: Notification, ts: seq<TargetRow>)
    requires n.targetClasses == Some(ts)
    ensures ResponseFromEntity(n).targetClasses == Some(ClassIdsOf(ts))
    ensures ResponseFromEntity(n).totalClasses == |ts|
  {
  }

  /** NotificationSummary.fromEntity. */
  function SummaryFromEntity(n: Notification): (s: NotificationSummary)
    reads n
    ensures s.totalClasses >= 0
    ensures s.totalClasses == if n.targetClasses.Some? then |n.targetClasses.value| else 0
    ensures s.notificationId == n.id && s.title == n.title
    ensures s.createdAt == n.createdAt && s.scheduledAt == n.scheduledAt
    ensures s.status == n.status && s.kind == n.kind
    ensures s.contentPreview == ContentPreview(n.content)
    ensures s.contentPreview.Some? ==> |s.contentPreview.value| <= PreviewLength + |Ellipsis|
    ensures s.teacherName.Some? <==> n.teacher.Some?
    ensures n.teacher.Some? ==> s.teacherName.value == n.teacher.value.fullName
  {
    NotificationSummary(
      n.id, n.title, ContentPreview(n.content), n.createdAt, n.scheduledAt, n.status, n.kind,
      if n.teacher.Some? then Some(n.teacher.value.fullName) else None,
      if n.targetClasses.Some? then |n.targetClasses.value| else 0)
  }

  /** The summary and the response of the same entity agree: the same
      identity, title, dates, status, type and class count; the summary's
      preview is the preview of the response's content; its teacher name is
      the response teacher's name. */
  lemma SummaryAgreesWithResponse(n: Notification)
    ensures var s, r := SummaryFromEntity(n), ResponseFromEntity(n);
      && s.notificationId == r.notificationId && s.title == r.title
      && s.createdAt == r.createdAt && s.scheduledAt == r.scheduledAt
      && s.status == r.status && s.kind == r.kind
      && s.totalClasses == r.totalClasses
      && s.contentPreview == ContentPreview(r.content)
      && (s.teacherName.Some? <==> r.teacher.Some?)
      && (r.teacher.Some? ==> s.teacherName.value == r.teacher.value.fullName)
  {
  }
}
