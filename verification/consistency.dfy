/** Properties that tie the services together: the owner's views, the restore
    window and the sweeper's cut-off describe the same 24 hours; an uploaded
    video is the file the sweeper later deletes; and the order indices that
    create and restore hand out. */
module Consistency {
  import opened Entities
  import opened Ownership
  import CourseService
  import SectionService
  import LectureService
  import CronService
  import PublicCourses

  /** For a course pending deletion with a deletion instant, the four places
      that judge the grace period agree: the by-id lookup shows it, the
      listing shows it, the restore accepts it, and the sweeper leaves it,
      all at the same instants. */
  lemma CourseWindowsAgree(st: Store, courseId: Id, ownerId: Id, now: Millis)
    requires courseId in st.courses && st.courses[courseId].ownerId == ownerId
    requires st.courses[courseId].status == PendingDeletion && st.courses[courseId].deletedAt.Some?
    ensures CourseService.FindCourseByIdAndOwner(st, courseId, ownerId, now).Some?
        <==> CourseService.RestoreCourseById(st, courseId, ownerId, now).Ok?
    ensures courseId in CourseService.FindCoursesByOwner(st, ownerId, now)
        <==> CourseService.RestoreCourseById(st, courseId, ownerId, now).Ok?
    ensures CourseService.RestoreCourseById(st, courseId, ownerId, now).Ok?
        <==> courseId !in CronService.ExpiredCourses(st, now)
  {
    CutoffComplementsGrace(st.courses[courseId].deletedAt.value, now);
  }

  /** The by-id lookup and the listing agree on every course of the owner
      except one that is pending deletion with a null `deletedAt`, which the
      lookup shows only during the first 24 hours of the epoch. */
  lemma OwnerViewsAgree(st: Store, courseId: Id, ownerId: Id, now: Millis)
    requires courseId in st.courses && st.courses[courseId].ownerId == ownerId
    ensures !(st.courses[courseId].status == PendingDeletion && st.courses[courseId].deletedAt.None?) ==>
              (CourseService.FindCourseByIdAndOwner(st, courseId, ownerId, now).Some?
               <==> courseId in CourseService.FindCoursesByOwner(st, ownerId, now))
    ensures st.courses[courseId].status == PendingDeletion && st.courses[courseId].deletedAt.None? ==>
              && courseId !in CourseService.FindCoursesByOwner(st, ownerId, now)
              && (CourseService.FindCourseByIdAndOwner(st, courseId, ownerId, now).Some?
                  <==> now <= GracePeriodMs)
  {
  }

  /** Soft-delete a course at `t0` and sweep at `now`: the course survives the
      sweep exactly when it can still be restored at `now`, that is when at
      most 24 hours have passed. */
  lemma SoftDeleteThenSweep(st: Store, courseId: Id, ownerId: Id, t0: Millis, now: Millis)
    requires Valid(st)
    requires courseId in st.courses && st.courses[courseId].ownerId == ownerId
    ensures CourseService.SoftDeleteCourse(st, courseId, ownerId, t0).Ok?
    ensures var st1 := CourseService.SoftDeleteCourse(st, courseId, ownerId, t0).value.store;
            && (courseId in CronService.Swept(st1, now).courses
                <==> CourseService.RestoreCourseById(st1, courseId, ownerId, now).Ok?)
            && (courseId in CronService.Swept(st1, now).courses <==> now - t0 <= GracePeriodMs)
  {
    var st1 := CourseService.SoftDeleteCourse(st, courseId, ownerId, t0).value.store;
    CronService.SweptExactly(st1, now);
    CutoffComplementsGrace(t0, now);
  }

  /** The update writes any status it is given, so it can revive a course
      whose restore window has closed: restore refuses the course and the
      sweep would remove it, but after an update to DRAFT the course is
      visible again and no sweep selects it, with its old `deletedAt` kept. */
  lemma StatusUpdateBypassesRestore(st: Store, courseId: Id, ownerId: Id,
                                    p: CourseService.CoursePatch, now: Millis)
    requires Valid(st)
    requires courseId in st.courses && st.courses[courseId].ownerId == ownerId
    requires st.courses[courseId].status == PendingDeletion && st.courses[courseId].deletedAt.Some?
    requires now - st.courses[courseId].deletedAt.value > GracePeriodMs
    requires p.status == Some(Draft)
    ensures CourseService.RestoreCourseById(st, courseId, ownerId, now) == Err(NotRestorable)
    ensures courseId in CronService.ExpiredCourses(st, now)
    ensures var up := CourseService.UpdateCourse(st, courseId, ownerId, p);
            && up.Ok?
            && up.value.record.deletedAt == st.courses[courseId].deletedAt
            && courseId !in CronService.ExpiredCourses(up.value.store, now)
            && CourseService.FindCourseByIdAndOwner(up.value.store, courseId, ownerId, now).Some?
            && courseId in CronService.Swept(up.value.store, now).courses
  {
    var up := CourseService.UpdateCourse(st, courseId, ownerId, p);
    CronService.SweptExactly(up.value.store, now);
  }

  /** Sections have no restore window: a section soft-deleted more than 24
      hours ago can still be restored until a sweep runs, and the sweep then
      removes it. */
  lemma SectionRestorableUntilSwept(st: Store, ownerId: Id, sectionId: Id, t0: Millis, now: Millis)
    requires Valid(st)
    requires OwnsSection(st, ownerId, sectionId)
    requires now - t0 > GracePeriodMs
    ensures SectionService.SoftDeleteSectionById(st, ownerId, sectionId, t0).Ok?
    ensures var st1 := SectionService.SoftDeleteSectionById(st, ownerId, sectionId, t0).value.store;
            && SectionService.RestoreSectionById(st1, ownerId, sectionId).Ok?
            && sectionId !in CronService.Swept(st1, now).sections
  {
    var st1 := SectionService.SoftDeleteSectionById(st, ownerId, sectionId, t0).value.store;
    CronService.SweptExactly(st1, now);
  }

  /** The blob key the sweeper derives from an uploaded video's web path is
      the upload path with forward slashes. */
  lemma UploadedVideoKey(path: string)
    ensures Truthy(Some(LectureService.WebPath(path)))
    ensures CronService.BlobKey(LectureService.WebPath(path)) == LectureService.ForwardSlashes(path)
  {
    assert LectureService.WebPath(path)[0] == '/';
  }

  /** A video uploaded to a lecture that is later soft-deleted is among the
      files the sweep deletes once the grace period has run out, whichever
      phase removes the lecture. */
  lemma UploadedVideoIsSwept(st: Store, ownerId: Id, lectureId: Id, file: LectureService.UploadedFile,
                             t0: Millis, now: Millis)
    requires Valid(st)
    requires OwnsLecture(st, ownerId, lectureId)
    requires now - t0 > GracePeriodMs
    ensures var up := LectureService.HandleLectureVideoUpload(st, [], true, ownerId, lectureId, file);
            var del := LectureService.SoftDeleteLectureById(up.store, ownerId, lectureId, t0);
            && del.Ok?
            && LectureService.ForwardSlashes(file.path)
               in CronService.MediaKeys(CronService.SweptMedia(del.value.store, now))
  {
    var up := LectureService.HandleLectureVideoUpload(st, [], true, ownerId, lectureId, file);
    var del := LectureService.SoftDeleteLectureById(up.store, ownerId, lectureId, t0);
    var st2 := del.value.store;
    var video := LectureService.WebPath(file.path);
    UploadedVideoKey(file.path);
    assert st2.lectures[lectureId].videoUrl == Some(video);
    assert CronService.DeletedBeforeCutoff(st2.lectures[lectureId].deletedAt, now);
    var sid := st2.lectures[lectureId].sectionId;
    var cid := st2.sections[sid].courseId;
    var s1 := CronService.CoursePhase(st2, now);
    var s2 := CronService.SectionPhase(s1, now);
    if cid in CronService.ExpiredCourses(st2, now) {
      assert sid in CronService.SectionsOf(st2, CronService.ExpiredCourses(st2, now));
      assert video in CronService.CourseMedia(st2, CronService.ExpiredCourses(st2, now));
    } else if sid in CronService.ExpiredSections(s1, now) {
      assert lectureId in s1.lectures;
      assert video in CronService.LectureVideosOf(s1, CronService.ExpiredSections(s1, now));
    } else {
      assert sid in s1.sections;
      assert lectureId in s1.lectures;
      assert lectureId in s2.lectures;
      assert lectureId in CronService.ExpiredLectures(s2, now);
      assert video in CronService.OwnVideos(s2, CronService.ExpiredLectures(s2, now));
    }
    assert video in CronService.SweptMedia(st2, now);
  }

  /** The search with no parameters lists every stored course, whatever its
      status: drafts and courses pending deletion match as well. */
  lemma DefaultSearchMatchesEveryCourse(st: Store, names: map<Id, string>)
    requires Valid(st)
    ensures var p := PublicCourses.SearchParams(None, None, None, None, None, None, None);
            forall c :: c in PublicCourses.Matching(st, p, names) <==> c in st.courses.Values
  {
    var p := PublicCourses.SearchParams(None, None, None, None, None, None, None);
    assert PublicCourses.BuildFilters(p) == [];
  }

  /** A draft course with the given id and owner and nothing else set. */
  function DraftCourse(id: Id, ownerId: Id): Course {
    Course(id, ownerId, "t", "t", None, None, None, None, "BEGINNER", "English", None,
           true, false, true, true, Draft, 0, None, None, None)
  }

  /** Order indices are counts, not positions. With sections A (0) and B (1),
      deleting A and creating C gives C the index 1 that B already holds, and
      restoring A then gives it 2. */
  lemma OrderIndexCollision()
    ensures var st0 := Store(map["c" := DraftCourse("c", "o")],
                             map["a" := Section("a", "c", "A", 0, None),
                                 "b" := Section("b", "c", "B", 1, None)],
                             map[]);
            var del := SectionService.SoftDeleteSectionById(st0, "o", "a", 1000);
            && del.Ok?
            && var add := SectionService.CreateSectionForCourse(del.value.store, "o", "c", "C", "n");
               && add.Ok?
               && add.value.record.orderIndex == 1
               && add.value.store.sections["b"].orderIndex == 1
               && var back := SectionService.RestoreSectionById(add.value.store, "o", "a");
                  && back.Ok?
                  && back.value.record.orderIndex == 2
  {
    var st0 := Store(map["c" := DraftCourse("c", "o")],
                     map["a" := Section("a", "c", "A", 0, None),
                         "b" := Section("b", "c", "B", 1, None)],
                     map[]);
    assert Valid(st0);
    assert ActiveSections(st0, "c") == {"a", "b"};
    var del := SectionService.SoftDeleteSectionById(st0, "o", "a", 1000);
    var st1 := del.value.store;
    assert ActiveSections(st1, "c") == {"b"};
    var add := SectionService.CreateSectionForCourse(st1, "o", "c", "C", "n");
    var st2 := add.value.store;
    assert ActiveSections(st2, "c") - {"n"} == {"b"};
    assert ActiveSections(st2, "c") == {"b", "n"};
    var back := SectionService.RestoreSectionById(st2, "o", "a");
    assert ActiveSections(back.value.store, "c") - {"a"} == {"b", "n"};
  }
}
