/** Ownership resolution through the parent chain, and the sibling counts from
    which new and restored sections and lectures take their `orderIndex`. */
module Ownership {
  import opened Entities

  /** `section.course.ownerId`: the owner of an existing section. */
  function SectionOwner(st: Store, sectionId: Id): Id
    requires Valid(st)
    requires sectionId in st.sections
  {
    st.courses[st.sections[sectionId].courseId].ownerId
  }

  /** `lecture.section.course.ownerId`: the owner of an existing lecture. */
  function LectureOwner(st: Store, lectureId: Id): Id
    requires Valid(st)
    requires lectureId in st.lectures
  {
    SectionOwner(st, st.lectures[lectureId].sectionId)
  }

  /** The section exists and its course belongs to `ownerId`. Neither the
      section's nor the course's deletion state takes part. */
  predicate OwnsSection(st: Store, ownerId: Id, sectionId: Id)
    requires Valid(st)
  {
    sectionId in st.sections && SectionOwner(st, sectionId) == ownerId
  }

  /** The lecture exists and the course above its section belongs to `ownerId`. */
  predicate OwnsLecture(st: Store, ownerId: Id, lectureId: Id)
    requires Valid(st)
  {
    lectureId in st.lectures && LectureOwner(st, lectureId) == ownerId
  }

  /** Ids of the sections of `courseId` whose `deletedAt` is null. */
  function ActiveSections(st: Store, courseId: Id): set<Id> {
    set id | id in st.sections && st.sections[id].courseId == courseId
                                && st.sections[id].deletedAt.None?
  }

  /** Ids of the lectures of `sectionId` whose `deletedAt` is null. */
  function ActiveLectures(st: Store, sectionId: Id): set<Id> {
    set id | id in st.lectures && st.lectures[id].sectionId == sectionId
                                && st.lectures[id].deletedAt.None?
  }

  /** Writing one section record changes the active set of a course only at
      that record's id: it leaves when it stops being an active child of the
      course and joins when it becomes one. */
  lemma ActiveSectionsAfterPut(st: Store, s: Section, courseId: Id)
    ensures ActiveSections(st.(sections := st.sections[s.id := s]), courseId)
         == (ActiveSections(st, courseId) - {s.id})
            + (if s.courseId == courseId && s.deletedAt.None? then {s.id} else {})
  {
  }

  /** The lecture counterpart of `ActiveSectionsAfterPut`. */
  lemma ActiveLecturesAfterPut(st: Store, l: Lecture, sectionId: Id)
    ensures ActiveLectures(st.(lectures := st.lectures[l.id := l]), sectionId)
         == (ActiveLectures(st, sectionId) - {l.id})
            + (if l.sectionId == sectionId && l.deletedAt.None? then {l.id} else {})
  {
  }
}
