/** The hourly retention sweeper. Three phases run in order (courses, then
    sections, then lectures): each selects the records whose deletion is older
    than the grace period, deletes their media files, then removes them.

    The blob store is a set of file keys. A file whose deletion fails with an
    error other than "not found" is listed in `stuck`: that error is logged and
    swallowed, and the file stays. */
module CronService {
  import opened Entities

  /** The blob-store key of a stored media path: the path without its first
      character (the leading `/`), resolved against the working directory. */
  function BlobKey(path: string): string
    requires path != ""
  {
    path[1..]
  }

  /** Deletes the file behind one media field. A null or empty path does
      nothing; an absent file is not an error; any other failure is swallowed. */
  function DeleteMediaFile(blobs: set<string>, stuck: set<string>, path: Option<string>)
    : (r: set<string>)
    ensures r <= blobs
    ensures !Truthy(path) ==> r == blobs
    ensures Truthy(path) ==> blobs - r <= {BlobKey(path.value)}
    ensures Truthy(path) && BlobKey(path.value) !in stuck ==> BlobKey(path.value) !in r
    ensures forall f :: f in stuck ==> (f in r <==> f in blobs)
  {
    if !Truthy(path) then blobs
    else if BlobKey(path.value) in stuck then blobs
    else blobs - {BlobKey(path.value)}
  }

  /** The keys of a set of media paths. */
  function MediaKeys(paths: set<string>): set<string> {
    set p | p in paths && p != "" :: BlobKey(p)
  }

  /** Deletes the files of every path in `paths`, one at a time. */
  method DeleteMediaFiles(blobs: set<string>, stuck: set<string>, paths: set<string>)
    returns (r: set<string>)
    ensures r == blobs - (MediaKeys(paths) - stuck)
  {
    r := blobs;
    var rest := paths;
    while rest != {}
      invariant rest <= paths
      invariant r == blobs - (MediaKeys(paths - rest) - stuck)
      decreases |rest|
    {
      var p :| p in rest;
      r := DeleteMediaFile(r, stuck, Some(p));
      assert MediaKeys(paths - (rest - {p}))
          == MediaKeys(paths - rest) + (if p != "" then {BlobKey(p)} else {});
      rest := rest - {p};
    }
    assert paths - rest == paths;
  }

  /** Selection of the course phase: pending deletion and deleted strictly
      before `now - 24h`. */
  predicate CourseExpired(c: Course, now: Millis) {
    c.status == PendingDeletion && c.deletedAt.Some? && BeforeCutoff(c.deletedAt.value, now)
  }

  /** Selection of the section and lecture phases: deleted strictly before
      `now - 24h`. */
  predicate DeletedBeforeCutoff(deletedAt: Option<Millis>, now: Millis) {
    deletedAt.Some? && BeforeCutoff(deletedAt.value, now)
  }

  function ExpiredCourses(st: Store, now: Millis): set<Id> {
    set id | id in st.courses && CourseExpired(st.courses[id], now)
  }

  function ExpiredSections(st: Store, now: Millis): set<Id> {
    set id | id in st.sections && DeletedBeforeCutoff(st.sections[id].deletedAt, now)
  }

  function ExpiredLectures(st: Store, now: Millis): set<Id> {
    set id | id in st.lectures && DeletedBeforeCutoff(st.lectures[id].deletedAt, now)
  }

  /** The sections of a set of courses, soft-deleted ones included. */
  function SectionsOf(st: Store, courseIds: set<Id>): set<Id> {
    set sid | sid in st.sections && st.sections[sid].courseId in courseIds
  }

  /** The video paths of every lecture of a set of sections, soft-deleted
      lectures included. */
  function LectureVideosOf(st: Store, sectionIds: set<Id>): set<string> {
    set lid | lid in st.lectures && st.lectures[lid].sectionId in sectionIds
                                 && Truthy(st.lectures[lid].videoUrl)
      :: st.lectures[lid].videoUrl.value
  }

  /** The video paths of a set of lectures. */
  function OwnVideos(st: Store, lectureIds: set<Id>): set<string> {
    set lid | lid in lectureIds && lid in st.lectures && Truthy(st.lectures[lid].videoUrl)
      :: st.lectures[lid].videoUrl.value
  }

  /** The media of a set of courses: thumbnail, promo video, and the video of
      every lecture in every section of each course. */
  function CourseMedia(st: Store, courseIds: set<Id>): set<string> {
    (set id | id in courseIds && id in st.courses && Truthy(st.courses[id].thumbnailUrl)
       :: st.courses[id].thumbnailUrl.value)
    + (set id | id in courseIds && id in st.courses && Truthy(st.courses[id].promoVideoUrl)
         :: st.courses[id].promoVideoUrl.value)
    + LectureVideosOf(st, SectionsOf(st, courseIds))
  }

  /** Removes the courses `ids`; the schema's cascade removes their sections and
      the lectures of those sections. */
  function PurgeCourses(st: Store, ids: set<Id>): (r: Store)
    ensures forall id :: id in r.courses <==> id in st.courses && id !in ids
    ensures forall sid :: sid in r.sections <==> sid in st.sections && st.sections[sid].courseId !in ids
    ensures Valid(st) ==> forall lid :: lid in r.lectures <==>
              lid in st.lectures && st.sections[st.lectures[lid].sectionId].courseId !in ids
    ensures forall id :: id in r.courses ==> r.courses[id] == st.courses[id]
    ensures forall sid :: sid in r.sections ==> r.sections[sid] == st.sections[sid]
    ensures forall lid :: lid in r.lectures ==> lid in st.lectures && r.lectures[lid] == st.lectures[lid]
    ensures Valid(st) ==> Valid(r)
  {
    var sections := map sid | sid in st.sections && st.sections[sid].courseId !in ids
                      :: st.sections[sid];
    Store(map id | id in st.courses && id !in ids :: st.courses[id],
          sections,
          map lid | lid in st.lectures && st.lectures[lid].sectionId in sections :: st.lectures[lid])
  }

  /** Removes the sections `ids`; the cascade removes their lectures. */
  function PurgeSections(st: Store, ids: set<Id>): (r: Store)
    ensures r.courses == st.courses
    ensures forall sid :: sid in r.sections <==> sid in st.sections && sid !in ids
    ensures forall lid :: lid in r.lectures <==> lid in st.lectures && st.lectures[lid].sectionId !in ids
    ensures forall sid :: sid in r.sections ==> r.sections[sid] == st.sections[sid]
    ensures forall lid :: lid in r.lectures ==> r.lectures[lid] == st.lectures[lid]
    ensures Valid(st) ==> Valid(r)
  {
    Store(st.courses,
          map sid | sid in st.sections && sid !in ids :: st.sections[sid],
          map lid | lid in st.lectures && st.lectures[lid].sectionId !in ids :: st.lectures[lid])
  }

  /** Removes the lectures `ids`. */
  function PurgeLectures(st: Store, ids: set<Id>): (r: Store)
    ensures r.courses == st.courses && r.sections == st.sections
    ensures forall lid :: lid in r.lectures <==> lid in st.lectures && lid !in ids
    ensures forall lid :: lid in r.lectures ==> r.lectures[lid] == st.lectures[lid]
    ensures Valid(st) ==> Valid(r)
  {
    st.(lectures := map lid | lid in st.lectures && lid !in ids :: st.lectures[lid])
  }

  /** Where a phase's database access throws, if it does: at the selecting
      query (nothing happens) or at the final removal (media already gone). */
  datatype StepFault = Healthy | QueryThrows | RemovalThrows

  /** The state after a phase or a sweep; `threw` says an exception ended it. */
  datatype Sweep = Sweep(store: Store, blobs: set<string>, threw: bool)

  /** A phase: select with `ids`, delete `media`, then remove with `purged`.
      An empty selection returns before any deletion. */
  method RunPhase(st: Store, blobs: set<string>, stuck: set<string>, fault: StepFault,
                  ids: set<Id>, media: set<string>, purged: Store)
    returns (r: Sweep)
    ensures fault == QueryThrows ==> r == Sweep(st, blobs, true)
    ensures fault != QueryThrows && ids == {} ==> r == Sweep(st, blobs, false)
    ensures fault != QueryThrows && ids != {} ==>
              && r.blobs == blobs - (MediaKeys(media) - stuck)
              && (fault == Healthy ==> r.store == purged && !r.threw)
              && (fault == RemovalThrows ==> r.store == st && r.threw)
  {
    if fault == QueryThrows {
      return Sweep(st, blobs, true);
    }
    if ids == {} {
      return Sweep(st, blobs, false);
    }
    var blobs' := DeleteMediaFiles(blobs, stuck, media);
    if fault == RemovalThrows {
      return Sweep(st, blobs', true);
    }
    r := Sweep(purged, blobs', false);
  }

  function CoursePhase(st: Store, now: Millis): Store {
    PurgeCourses(st, ExpiredCourses(st, now))
  }

  function SectionPhase(st: Store, now: Millis): Store {
    PurgeSections(st, ExpiredSections(st, now))
  }

  function LecturePhase(st: Store, now: Millis): Store {
    PurgeLectures(st, ExpiredLectures(st, now))
  }

  /** The store after a sweep in which nothing throws. */
  function Swept(st: Store, now: Millis): Store {
    LecturePhase(SectionPhase(CoursePhase(st, now), now), now)
  }

  /** Every media path a sweep in which nothing throws deletes. */
  function SweptMedia(st: Store, now: Millis): set<string> {
    var s1 := CoursePhase(st, now);
    var s2 := SectionPhase(s1, now);
    CourseMedia(st, ExpiredCourses(st, now))
    + LectureVideosOf(s1, ExpiredSections(s1, now))
    + OwnVideos(s2, ExpiredLectures(s2, now))
  }

  /** A phase ends without an exception: nothing throws, or only the removal
      would have thrown but the empty selection returned before it. */
  predicate Completes(fault: StepFault, selected: set<Id>) {
    fault == Healthy || (fault == RemovalThrows && selected == {})
  }

  /** The blob keys the course phase deletes from `st`. */
  function CourseKeys(st: Store, stuck: set<string>, now: Millis): set<string> {
    MediaKeys(CourseMedia(st, ExpiredCourses(st, now))) - stuck
  }

  /** The blob keys the section phase deletes from `st`. */
  function SectionKeys(st: Store, stuck: set<string>, now: Millis): set<string> {
    MediaKeys(LectureVideosOf(st, ExpiredSections(st, now))) - stuck
  }

  /** The blob keys the lecture phase deletes from `st`. */
  function LectureKeys(st: Store, stuck: set<string>, now: Millis): set<string> {
    MediaKeys(OwnVideos(st, ExpiredLectures(st, now))) - stuck
  }

  method CleanupExpiredCourses(st: Store, blobs: set<string>, stuck: set<string>, now: Millis,
                               fault: StepFault)
    returns (r: Sweep)
    requires Valid(st)
    ensures fault == QueryThrows ==> r == Sweep(st, blobs, true)
    ensures fault == Healthy ==> r == Sweep(CoursePhase(st, now),
                                             blobs - (MediaKeys(CourseMedia(st, ExpiredCourses(st, now))) - stuck),
                                             false)
    ensures fault == RemovalThrows ==>
              r.store == st && r.blobs == blobs - (MediaKeys(CourseMedia(st, ExpiredCourses(st, now))) - stuck)
    ensures fault == RemovalThrows ==> r.threw == (ExpiredCourses(st, now) != {})
    ensures ExpiredCourses(st, now) == {} ==> r.store == st && r.blobs == blobs
    ensures Completes(fault, ExpiredCourses(st, now)) ==>
              r == Sweep(CoursePhase(st, now), blobs - CourseKeys(st, stuck, now), false)
    ensures fault == RemovalThrows && ExpiredCourses(st, now) != {} ==>
              r == Sweep(st, blobs - CourseKeys(st, stuck, now), true)
    ensures Valid(r.store)
  {
    var ids := ExpiredCourses(st, now);
    if ids == {} {
      PurgeNothingCourses(st);
      MediaOfNoCourse(st);
    }
    r := RunPhase(st, blobs, stuck, fault, ids, CourseMedia(st, ids), CoursePhase(st, now));
  }

  method CleanupExpiredSections(st: Store, blobs: set<string>, stuck: set<string>, now: Millis,
                                fault: StepFault)
    returns (r: Sweep)
    requires Valid(st)
    ensures fault == QueryThrows ==> r == Sweep(st, blobs, true)
    ensures fault == Healthy ==> r == Sweep(SectionPhase(st, now),
                                             blobs - (MediaKeys(LectureVideosOf(st, ExpiredSections(st, now))) - stuck),
                                             false)
    ensures fault == RemovalThrows ==>
              r.store == st
              && r.blobs == blobs - (MediaKeys(LectureVideosOf(st, ExpiredSections(st, now))) - stuck)
    ensures fault == RemovalThrows ==> r.threw == (ExpiredSections(st, now) != {})
    ensures ExpiredSections(st, now) == {} ==> r.store == st && r.blobs == blobs
    ensures Completes(fault, ExpiredSections(st, now)) ==>
              r == Sweep(SectionPhase(st, now), blobs - SectionKeys(st, stuck, now), false)
    ensures fault == RemovalThrows && ExpiredSections(st, now) != {} ==>
              r == Sweep(st, blobs - SectionKeys(st, stuck, now), true)
    ensures Valid(r.store)
  {
    var ids := ExpiredSections(st, now);
    if ids == {} {
      PurgeNothingSections(st);
      assert LectureVideosOf(st, ids) == {};
    }
    r := RunPhase(st, blobs, stuck, fault, ids, LectureVideosOf(st, ids), SectionPhase(st, now));
  }

  method CleanupExpiredLectures(st: Store, blobs: set<string>, stuck: set<string>, now: Millis,
                                fault: StepFault)
    returns (r: Sweep)
    requires Valid(st)
    ensures fault == QueryThrows ==> r == Sweep(st, blobs, true)
    ensures fault == Healthy ==> r == Sweep(LecturePhase(st, now),
                                             blobs - (MediaKeys(OwnVideos(st, ExpiredLectures(st, now))) - stuck),
                                             false)
    ensures fault == RemovalThrows ==>
              r.store == st
              && r.blobs == blobs - (MediaKeys(OwnVideos(st, ExpiredLectures(st, now))) - stuck)
    ensures fault == RemovalThrows ==> r.threw == (ExpiredLectures(st, now) != {})
    ensures ExpiredLectures(st, now) == {} ==> r.store == st && r.blobs == blobs
    ensures Completes(fault, ExpiredLectures(st, now)) ==>
              r == Sweep(LecturePhase(st, now), blobs - LectureKeys(st, stuck, now), false)
    ensures fault == RemovalThrows && ExpiredLectures(st, now) != {} ==>
              r == Sweep(st, blobs - LectureKeys(st, stuck, now), true)
    ensures Valid(r.store)
  {
    var ids := ExpiredLectures(st, now);
    if ids == {} {
      PurgeNothingLectures(st);
      assert OwnVideos(st, ids) == {};
    }
    r := RunPhase(st, blobs, stuck, fault, ids, OwnVideos(st, ids), LecturePhase(st, now));
  }

  /** The faults of one sweep, phase by phase. */
  datatype Faults = Faults(courses: StepFault, sections: StepFault, lectures: StepFault)

  /** The three phases inside one try/catch: an exception in a phase skips the
      phases after it, and is logged rather than propagated. Each case below
      gives the store and the blob set the sweep ends with. */
  method RunAllCleanupTasks(st: Store, blobs: set<string>, stuck: set<string>, now: Millis,
                            faults: Faults)
    returns (r: Sweep)
    requires Valid(st)
    ensures faults == Faults(Healthy, Healthy, Healthy) ==>
              r == Sweep(Swept(st, now), blobs - (MediaKeys(SweptMedia(st, now)) - stuck), false)
    ensures var s1 := CoursePhase(st, now);
            var s2 := SectionPhase(s1, now);
            var b1 := blobs - CourseKeys(st, stuck, now);
            var b2 := b1 - SectionKeys(s1, stuck, now);
            var b3 := b2 - LectureKeys(s2, stuck, now);
            var c := Completes(faults.courses, ExpiredCourses(st, now));
            var s := Completes(faults.sections, ExpiredSections(s1, now));
            var l := Completes(faults.lectures, ExpiredLectures(s2, now));
            && (faults.courses == QueryThrows ==> r == Sweep(st, blobs, true))
            && (faults.courses == RemovalThrows && ExpiredCourses(st, now) != {} ==>
                  r == Sweep(st, b1, true))
            && (c && faults.sections == QueryThrows ==> r == Sweep(s1, b1, true))
            && (c && faults.sections == RemovalThrows && ExpiredSections(s1, now) != {} ==>
                  r == Sweep(s1, b2, true))
            && (c && s && faults.lectures == QueryThrows ==> r == Sweep(s2, b2, true))
            && (c && s && faults.lectures == RemovalThrows && ExpiredLectures(s2, now) != {} ==>
                  r == Sweep(s2, b3, true))
            && (c && s && l ==> r == Sweep(Swept(st, now), b3, false))
    ensures Valid(r.store)
  {
    var a := CleanupExpiredCourses(st, blobs, stuck, now, faults.courses);
    if a.threw {
      return a;
    }
    var b := CleanupExpiredSections(a.store, a.blobs, stuck, now, faults.sections);
    if b.threw {
      return b;
    }
    r := CleanupExpiredLectures(b.store, b.blobs, stuck, now, faults.lectures);
    if faults == Faults(Healthy, Healthy, Healthy) {
      var s1 := CoursePhase(st, now);
      var s2 := SectionPhase(s1, now);
      var m1 := CourseMedia(st, ExpiredCourses(st, now));
      var m2 := LectureVideosOf(s1, ExpiredSections(s1, now));
      var m3 := OwnVideos(s2, ExpiredLectures(s2, now));
      MediaKeysOfUnion(m1, m2, m3);
      SubtractInSteps(blobs, stuck, MediaKeys(m1), MediaKeys(m2), MediaKeys(m3));
    }
  }

  lemma SubtractInSteps(blobs: set<string>, stuck: set<string>, a: set<string>, b: set<string>,
                        c: set<string>)
    ensures blobs - (a - stuck) - (b - stuck) - (c - stuck) == blobs - ((a + b + c) - stuck)
  {
  }

  lemma MediaKeysOfUnion(a: set<string>, b: set<string>, c: set<string>)
    ensures MediaKeys(a + b + c) == MediaKeys(a) + MediaKeys(b) + MediaKeys(c)
  {
  }

  lemma MediaOfNoCourse(st: Store)
    ensures CourseMedia(st, {}) == {}
  {
    assert SectionsOf(st, {}) == {};
  }

  lemma PurgeNothingCourses(st: Store)
    requires Valid(st)
    ensures PurgeCourses(st, {}) == st
  {
    var r := PurgeCourses(st, {});
    assert r.courses == st.courses;
    assert r.sections == st.sections;
    assert r.lectures == st.lectures;
  }

  lemma PurgeNothingSections(st: Store)
    requires Valid(st)
    ensures PurgeSections(st, {}) == st
  {
    var r := PurgeSections(st, {});
    assert r.sections == st.sections;
    assert r.lectures == st.lectures;
  }

  lemma PurgeNothingLectures(st: Store)
    ensures PurgeLectures(st, {}) == st
  {
    assert PurgeLectures(st, {}).lectures == st.lectures;
  }

  /** Exactly what a sweep removes: a course goes iff it is expired; a section
      goes iff it or its course is expired; a lecture goes iff it, its section
      or its course is expired. Every record that stays is unchanged. */
  lemma SweptExactly(st: Store, now: Millis)
    requires Valid(st)
    ensures var r := Swept(st, now);
      && (forall id :: id in r.courses <==>
            id in st.courses && !CourseExpired(st.courses[id], now))
      && (forall sid :: sid in r.sections <==>
            && sid in st.sections
            && !DeletedBeforeCutoff(st.sections[sid].deletedAt, now)
            && !CourseExpired(st.courses[st.sections[sid].courseId], now))
      && (forall lid :: lid in r.lectures <==>
            && lid in st.lectures
            && !DeletedBeforeCutoff(st.lectures[lid].deletedAt, now)
            && !DeletedBeforeCutoff(st.sections[st.lectures[lid].sectionId].deletedAt, now)
            && !CourseExpired(st.courses[st.sections[st.lectures[lid].sectionId].courseId], now))
      && (forall id :: id in r.courses ==> r.courses[id] == st.courses[id])
      && (forall sid :: sid in r.sections ==> r.sections[sid] == st.sections[sid])
      && (forall lid :: lid in r.lectures ==> r.lectures[lid] == st.lectures[lid])
  {
    var s1 := CoursePhase(st, now);
    var s2 := SectionPhase(s1, now);
    assert Valid(s1) && Valid(s2);
    forall sid | sid in s2.sections
      ensures s2.sections[sid] == st.sections[sid]
    {
    }
    forall lid | lid in s2.lectures
      ensures st.lectures[lid].sectionId in s2.sections
      ensures s2.lectures[lid] == st.lectures[lid]
    {
    }
  }

  /** After a sweep nothing is left for the next sweep at the same instant. */
  lemma SweptLeavesNothingExpired(st: Store, now: Millis)
    requires Valid(st)
    ensures ExpiredCourses(Swept(st, now), now) == {}
    ensures ExpiredSections(Swept(st, now), now) == {}
    ensures ExpiredLectures(Swept(st, now), now) == {}
  {
    SweptExactly(st, now);
  }

  /** A second sweep at the same instant removes nothing further. */
  lemma SweepIdempotent(st: Store, now: Millis)
    requires Valid(st)
    ensures Swept(Swept(st, now), now) == Swept(st, now)
    ensures SweptMedia(Swept(st, now), now) == {}
  {
    var r := Swept(st, now);
    SweptLeavesNothingExpired(st, now);
    PurgeNothingCourses(r);
    PurgeNothingSections(r);
    PurgeNothingLectures(r);
    MediaOfNoCourse(r);
    assert LectureVideosOf(r, {}) == {};
    assert OwnVideos(r, {}) == {};
  }
}
