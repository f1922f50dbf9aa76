/** The instructor's lecture operations and the upload dispatcher. Every
    check resolves the owner through the parent chain and ignores the
    deletion state of the section and of the course. */
module LectureService {
  import opened Entities
  import opened Ownership
  import Listing

  /** Fails with FORBIDDEN unless the lecture exists and belongs to `ownerId`. */
  function VerifyLectureOwnership(st: Store, ownerId: Id, lectureId: Id): (r: Result<Lecture>)
    requires Valid(st)
    ensures r.Ok? <==> lectureId in st.lectures
                       && st.courses[st.sections[st.lectures[lectureId].sectionId].courseId].ownerId
                          == ownerId
    ensures r.Ok? ==> r.value == st.lectures[lectureId]
    ensures r.Err? ==> r.error == Forbidden
  {
    if lectureId !in st.lectures || LectureOwner(st, lectureId) != ownerId then Err(Forbidden)
    else Ok(st.lectures[lectureId])
  }

  /** Fails with FORBIDDEN unless the section exists and belongs to `ownerId`. */
  function VerifySectionOwnership(st: Store, ownerId: Id, sectionId: Id): (r: Result<Section>)
    requires Valid(st)
    ensures r.Ok? <==> sectionId in st.sections
                       && st.courses[st.sections[sectionId].courseId].ownerId == ownerId
    ensures r.Ok? ==> r.value == st.sections[sectionId]
    ensures r.Err? ==> r.error == Forbidden
  {
    if sectionId !in st.sections || SectionOwner(st, sectionId) != ownerId then Err(Forbidden)
    else Ok(st.sections[sectionId])
  }

  /** Creates an active lecture at the end of the section: its `orderIndex` is
      the number of lectures of the section with a null `deletedAt`. */
  function CreateLectureForSection(st: Store, ownerId: Id, sectionId: Id, title: string, newId: Id)
    : (r: Result<Change<Lecture>>)
    requires Valid(st)
    requires newId !in st.lectures
    ensures r.Ok? <==> OwnsSection(st, ownerId, sectionId)
    ensures r.Err? ==> r.error == Forbidden
    ensures r.Ok? ==>
      var l := r.value.record;
      && r.value.store == st.(lectures := st.lectures[newId := l])
      && l.id == newId && l.sectionId == sectionId && l.title == title && l.deletedAt.None?
      && l.videoUrl.None? && l.description.None? && !l.isPreviewable && l.videoDurationSeconds.None?
      && ActiveLectures(r.value.store, sectionId) == ActiveLectures(st, sectionId) + {newId}
      && l.orderIndex == |ActiveLectures(r.value.store, sectionId) - {newId}|
    ensures r.Ok? ==> Valid(r.value.store)
  {
    match VerifySectionOwnership(st, ownerId, sectionId)
    case Err(e) => Err(e)
    case Ok(_) =>
      var l := Lecture(newId, sectionId, title, None, false, |ActiveLectures(st, sectionId)|,
                       None, None, None);
      var st' := st.(lectures := st.lectures[newId := l]);
      ActiveLecturesAfterPut(st, l, sectionId);
      assert ActiveLectures(st', sectionId) - {newId} == ActiveLectures(st, sectionId);
      Ok(Change(st', l))
  }

  function OrderKey(l: Lecture): int { l.orderIndex }

  /** Ascending order of this key is descending order of `deletedAt`. */
  function NewestDeletedKey(l: Lecture): int {
    if l.deletedAt.Some? then -l.deletedAt.value else 0
  }

  /** The active lectures of a section, each once, by `orderIndex` ascending. */
  method FindLecturesBySection(st: Store, ownerId: Id, sectionId: Id)
    returns (r: Result<seq<Lecture>>)
    requires Valid(st)
    ensures r.Ok? <==> OwnsSection(st, ownerId, sectionId)
    ensures r.Err? ==> r.error == Forbidden
    ensures r.Ok? ==> forall l :: l in r.value <==>
              l in st.lectures.Values && l.sectionId == sectionId && l.deletedAt.None?
    ensures r.Ok? ==> forall i, j :: 0 <= i < j < |r.value| ==> r.value[i] != r.value[j]
    ensures r.Ok? ==> forall i, j :: 0 <= i < j < |r.value| ==>
              r.value[i].orderIndex <= r.value[j].orderIndex
  {
    var v := VerifySectionOwnership(st, ownerId, sectionId);
    if v.Err? {
      return Err(v.error);
    }
    var rows := set l | l in st.lectures.Values && l.sectionId == sectionId && l.deletedAt.None?;
    var sorted := Listing.SortByKey(rows, OrderKey);
    assert forall i, j :: 0 <= i < j < |sorted| ==> OrderKey(sorted[i]) <= OrderKey(sorted[j]);
    r := Ok(sorted);
  }

  /** The soft-deleted lectures of a section, each once, most recently deleted first. */
  method FindDeletedLecturesBySection(st: Store, ownerId: Id, sectionId: Id)
    returns (r: Result<seq<Lecture>>)
    requires Valid(st)
    ensures r.Ok? <==> OwnsSection(st, ownerId, sectionId)
    ensures r.Err? ==> r.error == Forbidden
    ensures r.Ok? ==> forall l :: l in r.value <==>
              l in st.lectures.Values && l.sectionId == sectionId && l.deletedAt.Some?
    ensures r.Ok? ==> forall i, j :: 0 <= i < j < |r.value| ==> r.value[i] != r.value[j]
    ensures r.Ok? ==> forall i, j :: 0 <= i < j < |r.value| ==>
              && r.value[i].deletedAt.Some? && r.value[j].deletedAt.Some?
              && r.value[i].deletedAt.value >= r.value[j].deletedAt.value
  {
    var v := VerifySectionOwnership(st, ownerId, sectionId);
    if v.Err? {
      return Err(v.error);
    }
    var rows := set l | l in st.lectures.Values && l.sectionId == sectionId && l.deletedAt.Some?;
    var sorted := Listing.SortByKey(rows, NewestDeletedKey);
    assert forall i :: 0 <= i < |sorted| ==> sorted[i] in rows;
    assert forall i, j :: 0 <= i < j < |sorted| ==>
             NewestDeletedKey(sorted[i]) <= NewestDeletedKey(sorted[j]);
    r := Ok(sorted);
  }

  /** The fields a lecture update writes; `None` is an absent field. */
  datatype LecturePatch = LecturePatch(
    title: Option<string>,
    description: Option<string>,
    isPreviewable: Option<bool>)

  /** Updates the title, description and preview flag of a lecture of
      `ownerId`; a soft-deleted lecture can be updated too. */
  function UpdateLectureById(st: Store, ownerId: Id, lectureId: Id, p: LecturePatch)
    : (r: Result<Change<Lecture>>)
    requires Valid(st)
    ensures r.Ok? <==> OwnsLecture(st, ownerId, lectureId)
    ensures r.Err? ==> r.error == Forbidden
    ensures r.Ok? ==>
      var old_ := st.lectures[lectureId];
      var l := r.value.record;
      && r.value.store == st.(lectures := st.lectures[lectureId := l])
      && l.(title := old_.title, description := old_.description,
            isPreviewable := old_.isPreviewable) == old_
      && (p.title.Some? ==> l.title == p.title.value)
      && (p.description.Some? ==> l.description == p.description)
      && (p.isPreviewable.Some? ==> l.isPreviewable == p.isPreviewable.value)
      && (p.title.None? ==> l.title == old_.title)
      && (p.description.None? ==> l.description == old_.description)
      && (p.isPreviewable.None? ==> l.isPreviewable == old_.isPreviewable)
    ensures r.Ok? ==> Valid(r.value.store)
  {
    match VerifyLectureOwnership(st, ownerId, lectureId)
    case Err(e) => Err(e)
    case Ok(old_) =>
      var l := old_.(title := if p.title.Some? then p.title.value else old_.title,
                     description := if p.description.Some? then p.description else old_.description,
                     isPreviewable := if p.isPreviewable.Some? then p.isPreviewable.value
                                      else old_.isPreviewable);
      Ok(Change(st.(lectures := st.lectures[lectureId := l]), l))
  }

  /** Sets `deletedAt := now` on a lecture of `ownerId`, whatever its state. */
  function SoftDeleteLectureById(st: Store, ownerId: Id, lectureId: Id, now: Millis)
    : (r: Result<Change<Lecture>>)
    requires Valid(st)
    ensures r.Ok? <==> OwnsLecture(st, ownerId, lectureId)
    ensures r.Err? ==> r.error == Forbidden
    ensures r.Ok? ==>
      var sid := st.lectures[lectureId].sectionId;
      && r.value.record == st.lectures[lectureId].(deletedAt := Some(now))
      && r.value.store == st.(lectures := st.lectures[lectureId := r.value.record])
      && ActiveLectures(r.value.store, sid) == ActiveLectures(st, sid) - {lectureId}
    ensures r.Ok? ==> Valid(r.value.store)
  {
    match VerifyLectureOwnership(st, ownerId, lectureId)
    case Err(e) => Err(e)
    case Ok(old_) =>
      var l := old_.(deletedAt := Some(now));
      ActiveLecturesAfterPut(st, l, l.sectionId);
      Ok(Change(st.(lectures := st.lectures[lectureId := l]), l))
  }

  /** Restores a soft-deleted lecture of `ownerId` at the end of the active
      list: FORBIDDEN first, then NOT_RESTORABLE for an active lecture; no
      grace-period check. */
  function RestoreLectureById(st: Store, ownerId: Id, lectureId: Id): (r: Result<Change<Lecture>>)
    requires Valid(st)
    ensures !OwnsLecture(st, ownerId, lectureId) ==> r == Err(Forbidden)
    ensures OwnsLecture(st, ownerId, lectureId) && st.lectures[lectureId].deletedAt.None?
            ==> r == Err(NotRestorable)
    ensures r.Ok? <==> OwnsLecture(st, ownerId, lectureId) && st.lectures[lectureId].deletedAt.Some?
    ensures r.Ok? ==>
      var old_ := st.lectures[lectureId];
      var l := r.value.record;
      && r.value.store == st.(lectures := st.lectures[lectureId := l])
      && l == old_.(deletedAt := None, orderIndex := l.orderIndex)
      && ActiveLectures(r.value.store, old_.sectionId) == ActiveLectures(st, old_.sectionId) + {lectureId}
      && l.orderIndex == |ActiveLectures(r.value.store, old_.sectionId) - {lectureId}|
    ensures r.Ok? ==> Valid(r.value.store)
  {
    match VerifyLectureOwnership(st, ownerId, lectureId)
    case Err(e) => Err(e)
    case Ok(old_) =>
      if old_.deletedAt.None? then Err(NotRestorable)
      else
        var l := old_.(deletedAt := None, orderIndex := |ActiveLectures(st, old_.sectionId)|);
        var st' := st.(lectures := st.lectures[lectureId := l]);
        ActiveLecturesAfterPut(st, l, old_.sectionId);
        assert lectureId !in ActiveLectures(st, old_.sectionId);
        assert ActiveLectures(st', old_.sectionId) - {lectureId} == ActiveLectures(st, old_.sectionId);
        Ok(Change(st', l))
  }

  /** `path.replace(/\\/g, "/")`: every backslash becomes a slash. */
  function ForwardSlashes(path: string): (r: string)
    ensures |r| == |path|
    ensures forall i :: 0 <= i < |path| ==> r[i] == (if path[i] == '\\' then '/' else path[i])
  {
    if |path| == 0 then [] else [if path[0] == '\\' then '/' else path[0]] + ForwardSlashes(path[1..])
  }

  /** The web path recorded for an uploaded file: a leading `/` and the upload
      path with forward slashes. */
  function WebPath(path: string): (r: string)
    ensures |r| == |path| + 1
    ensures r[0] == '/'
    ensures forall i :: 0 <= i < |r| ==> r[i] != '\\'
    ensures forall i :: 0 <= i < |path| && path[i] != '\\' ==> r[i + 1] == path[i]
  {
    "/" + ForwardSlashes(path)
  }

  /** The file multer stored: its path on disk and its generated file name. */
  datatype UploadedFile = UploadedFile(path: string, filename: string)

  /** The job the video processor receives. */
  datatype VideoJob = VideoJob(lectureId: Id, fileName: string)

  /** A message handed to the broker: target queue, payload, persistence flag. */
  datatype QueuedJob = QueuedJob(queue: string, job: VideoJob, persistent: bool)

  const VideoProcessingQueue: string := "video_processing_queue"

  /** The state after an upload request: the store, the jobs sent so far, and
      the reply. */
  datatype Upload = Upload(store: Store, sent: seq<QueuedJob>, reply: Result<Lecture>)

  /** Records the raw upload on the lecture, then sends one persistent job to
      the processing queue. `channelOpen` is whether the broker channel has been
      opened; sending on a channel that was never opened throws after the
      lecture was already written. */
  function HandleLectureVideoUpload(st: Store, sent: seq<QueuedJob>, channelOpen: bool,
                                    ownerId: Id, lectureId: Id, file: UploadedFile)
    : (r: Upload)
    requires Valid(st)
    ensures !OwnsLecture(st, ownerId, lectureId) ==> r == Upload(st, sent, Err(Forbidden))
    ensures OwnsLecture(st, ownerId, lectureId) ==>
      var l := st.lectures[lectureId].(videoUrl := Some(WebPath(file.path)));
      && r.store == st.(lectures := st.lectures[lectureId := l])
      && (channelOpen ==>
            && r.reply == Ok(l)
            && r.sent == sent + [QueuedJob(VideoProcessingQueue, VideoJob(lectureId, file.filename), true)])
      && (!channelOpen ==> r.reply == Err(QueueUnavailable) && r.sent == sent)
    ensures Valid(r.store)
  {
    match VerifyLectureOwnership(st, ownerId, lectureId)
    case Err(e) => Upload(st, sent, Err(e))
    case Ok(old_) =>
      var l := old_.(videoUrl := Some(WebPath(file.path)));
      var st' := st.(lectures := st.lectures[lectureId := l]);
      if channelOpen then
        Upload(st', sent + [QueuedJob(VideoProcessingQueue, VideoJob(lectureId, file.filename), true)],
               Ok(l))
      else Upload(st', sent, Err(QueueUnavailable))
  }
}
