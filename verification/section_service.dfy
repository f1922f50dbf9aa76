/** The instructor's section operations. Course-level operations go through
    `VerifyCourseOwnership`, which also refuses a soft-deleted course;
    section-level operations resolve the owner through `section.course.ownerId`
    and ignore the course's deletion state. */
module SectionService {
  import opened Entities
  import opened Ownership
  import Listing

  /** Succeeds with the course when it exists, belongs to `ownerId` and has a
      null `deletedAt`; fails with FORBIDDEN in every other case. */
  function VerifyCourseOwnership(st: Store, ownerId: Id, courseId: Id): (r: Result<Course>)
    ensures r.Ok? <==> && courseId in st.courses
                       && st.courses[courseId].ownerId == ownerId
                       && st.courses[courseId].deletedAt.None?
    ensures r.Ok? ==> r.value == st.courses[courseId]
    ensures r.Err? ==> r.error == Forbidden
  {
    if courseId !in st.courses || st.courses[courseId].ownerId != ownerId
       || st.courses[courseId].deletedAt.Some?
    then Err(Forbidden)
    else Ok(st.courses[courseId])
  }

  /** Creates an active section at the end of the course: its `orderIndex` is
      the number of sections of the course with a null `deletedAt`. */
  function CreateSectionForCourse(st: Store, ownerId: Id, courseId: Id, title: string, newId: Id)
    : (r: Result<Change<Section>>)
    requires newId !in st.sections
    ensures r.Ok? <==> VerifyCourseOwnership(st, ownerId, courseId).Ok?
    ensures r.Err? ==> r.error == Forbidden
    ensures r.Ok? ==>
      var s := r.value.record;
      && r.value.store == st.(sections := st.sections[newId := s])
      && s.id == newId && s.courseId == courseId && s.title == title && s.deletedAt.None?
      && ActiveSections(r.value.store, courseId) == ActiveSections(st, courseId) + {newId}
      && s.orderIndex == |ActiveSections(r.value.store, courseId) - {newId}|
    ensures r.Ok? && Valid(st) ==> Valid(r.value.store)
  {
    match VerifyCourseOwnership(st, ownerId, courseId)
    case Err(e) => Err(e)
    case Ok(_) =>
      var s := Section(newId, courseId, title, |ActiveSections(st, courseId)|, None);
      var st' := st.(sections := st.sections[newId := s]);
      ActiveSectionsAfterPut(st, s, courseId);
      assert ActiveSections(st', courseId) - {newId} == ActiveSections(st, courseId);
      Ok(Change(st', s))
  }

  function OrderKey(s: Section): int { s.orderIndex }

  /** Ascending order of this key is descending order of `deletedAt`. */
  function NewestDeletedKey(s: Section): int {
    if s.deletedAt.Some? then -s.deletedAt.value else 0
  }

  /** The active sections of a course, each once, by `orderIndex` ascending. */
  method FindSectionsByCourse(st: Store, ownerId: Id, courseId: Id) returns (r: Result<seq<Section>>)
    requires Valid(st)
    ensures r.Ok? <==> VerifyCourseOwnership(st, ownerId, courseId).Ok?
    ensures r.Err? ==> r.error == Forbidden
    ensures r.Ok? ==> forall s :: s in r.value <==>
              s in st.sections.Values && s.courseId == courseId && s.deletedAt.None?
    ensures r.Ok? ==> forall i, j :: 0 <= i < j < |r.value| ==> r.value[i] != r.value[j]
    ensures r.Ok? ==> forall i, j :: 0 <= i < j < |r.value| ==>
              r.value[i].orderIndex <= r.value[j].orderIndex
  {
    var v := VerifyCourseOwnership(st, ownerId, courseId);
    if v.Err? {
      return Err(v.error);
    }
    var rows := set s | s in st.sections.Values && s.courseId == courseId && s.deletedAt.None?;
    var sorted := Listing.SortByKey(rows, OrderKey);
    assert forall i, j :: 0 <= i < j < |sorted| ==> OrderKey(sorted[i]) <= OrderKey(sorted[j]);
    r := Ok(sorted);
  }

  /** The soft-deleted sections of a course, each once, most recently deleted first. */
  method FindDeletedSectionsByCourse(st: Store, ownerId: Id, courseId: Id)
    returns (r: Result<seq<Section>>)
    requires Valid(st)
    ensures r.Ok? <==> VerifyCourseOwnership(st, ownerId, courseId).Ok?
    ensures r.Err? ==> r.error == Forbidden
    ensures r.Ok? ==> forall s :: s in r.value <==>
              s in st.sections.Values && s.courseId == courseId && s.deletedAt.Some?
    ensures r.Ok? ==> forall i, j :: 0 <= i < j < |r.value| ==> r.value[i] != r.value[j]
    ensures r.Ok? ==> forall i, j :: 0 <= i < j < |r.value| ==>
              && r.value[i].deletedAt.Some? && r.value[j].deletedAt.Some?
              && r.value[i].deletedAt.value >= r.value[j].deletedAt.value
  {
    var v := VerifyCourseOwnership(st, ownerId, courseId);
    if v.Err? {
      return Err(v.error);
    }
    var rows := set s | s in st.sections.Values && s.courseId == courseId && s.deletedAt.Some?;
    var sorted := Listing.SortByKey(rows, NewestDeletedKey);
    assert forall i :: 0 <= i < |sorted| ==> sorted[i] in rows;
    assert forall i, j :: 0 <= i < j < |sorted| ==>
             NewestDeletedKey(sorted[i]) <= NewestDeletedKey(sorted[j]);
    r := Ok(sorted);
  }

  /** The fields a section update writes; `None` is an absent field. */
  datatype SectionPatch = SectionPatch(title: Option<string>, orderIndex: Option<int>)

  /** Updates the title and `orderIndex` of an active section of `ownerId`. */
  function UpdateSectionById(st: Store, ownerId: Id, sectionId: Id, p: SectionPatch)
    : (r: Result<Change<Section>>)
    requires Valid(st)
    ensures r.Ok? <==> OwnsSection(st, ownerId, sectionId) && st.sections[sectionId].deletedAt.None?
    ensures r.Err? ==> r.error == Forbidden
    ensures r.Ok? ==>
      var old_ := st.sections[sectionId];
      var s := r.value.record;
      && r.value.store == st.(sections := st.sections[sectionId := s])
      && s.id == old_.id && s.courseId == old_.courseId && s.deletedAt == old_.deletedAt
      && s.title == (if p.title.Some? then p.title.value else old_.title)
      && s.orderIndex == (if p.orderIndex.Some? then p.orderIndex.value else old_.orderIndex)
    ensures r.Ok? ==> Valid(r.value.store)
  {
    if sectionId !in st.sections || SectionOwner(st, sectionId) != ownerId then Err(Forbidden)
    else if st.sections[sectionId].deletedAt.Some? then Err(Forbidden)
    else
      var old_ := st.sections[sectionId];
      var s := old_.(title := if p.title.Some? then p.title.value else old_.title,
                     orderIndex := if p.orderIndex.Some? then p.orderIndex.value else old_.orderIndex);
      Ok(Change(st.(sections := st.sections[sectionId := s]), s))
  }

  /** Sets `deletedAt := now` on a section of `ownerId`, whatever its current
      state. No sibling is renumbered. */
  function SoftDeleteSectionById(st: Store, ownerId: Id, sectionId: Id, now: Millis)
    : (r: Result<Change<Section>>)
    requires Valid(st)
    ensures r.Ok? <==> OwnsSection(st, ownerId, sectionId)
    ensures r.Err? ==> r.error == Forbidden
    ensures r.Ok? ==>
      var c := st.sections[sectionId].courseId;
      && r.value.record == st.sections[sectionId].(deletedAt := Some(now))
      && r.value.store == st.(sections := st.sections[sectionId := r.value.record])
      && ActiveSections(r.value.store, c) == ActiveSections(st, c) - {sectionId}
    ensures r.Ok? ==> Valid(r.value.store)
  {
    if sectionId !in st.sections || SectionOwner(st, sectionId) != ownerId then Err(Forbidden)
    else
      var s := st.sections[sectionId].(deletedAt := Some(now));
      ActiveSectionsAfterPut(st, s, s.courseId);
      Ok(Change(st.(sections := st.sections[sectionId := s]), s))
  }

  /** Restores a soft-deleted section of `ownerId` at the end of the active
      list. Ownership is checked first (FORBIDDEN), then the deletion state
      (NOT_RESTORABLE); there is no grace-period check and no clock. */
  function RestoreSectionById(st: Store, ownerId: Id, sectionId: Id): (r: Result<Change<Section>>)
    requires Valid(st)
    ensures !OwnsSection(st, ownerId, sectionId) ==> r == Err(Forbidden)
    ensures OwnsSection(st, ownerId, sectionId) && st.sections[sectionId].deletedAt.None?
            ==> r == Err(NotRestorable)
    ensures r.Ok? <==> OwnsSection(st, ownerId, sectionId) && st.sections[sectionId].deletedAt.Some?
    ensures r.Ok? ==>
      var old_ := st.sections[sectionId];
      var s := r.value.record;
      && r.value.store == st.(sections := st.sections[sectionId := s])
      && s == old_.(deletedAt := None, orderIndex := s.orderIndex)
      && ActiveSections(r.value.store, old_.courseId) == ActiveSections(st, old_.courseId) + {sectionId}
      && s.orderIndex == |ActiveSections(r.value.store, old_.courseId) - {sectionId}|
    ensures r.Ok? ==> Valid(r.value.store)
  {
    if sectionId !in st.sections || SectionOwner(st, sectionId) != ownerId then Err(Forbidden)
    else if st.sections[sectionId].deletedAt.None? then Err(NotRestorable)
    else
      var old_ := st.sections[sectionId];
      var s := old_.(deletedAt := None, orderIndex := |ActiveSections(st, old_.courseId)|);
      var st' := st.(sections := st.sections[sectionId := s]);
      ActiveSectionsAfterPut(st, s, old_.courseId);
      assert sectionId !in ActiveSections(st, old_.courseId);
      assert ActiveSections(st', old_.courseId) - {sectionId} == ActiveSections(st, old_.courseId);
      Ok(Change(st', s))
  }
}
