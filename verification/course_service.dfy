/** The instructor's course operations: create, list, look up, update,
    soft-delete and restore. */
module CourseService {
  import opened Entities
  import Slug

  /** The request body of a course creation. `None` stands for a field that is
      missing or null. */
  datatype CourseInput = CourseInput(
    title: Option<string>,
    subtitle: Option<string>,
    description: Option<string>,
    categoryId: Option<Id>,
    level: Option<string>,
    language: Option<string>,
    estimatedHours: Option<int>,
    isPaid: Option<bool>,
    isPracticeTestCourse: Option<bool>,
    hasCertificate: Option<bool>,
    isQnAEnabled: Option<bool>)

  /** `value || fallback`: every falsy string, the empty one included, falls back. */
  function OrElse(v: Option<string>, fallback: string): string {
    if Truthy(v) then v.value else fallback
  }

  /** `value ?? fallback`: only a missing value falls back, so `false` is kept. */
  function Coalesce(v: Option<bool>, fallback: bool): bool {
    if v.Some? then v.value else fallback
  }

  /** The slugs of all stored courses, whatever their state. */
  function SlugsInUse(st: Store): set<string> {
    set id | id in st.courses :: st.courses[id].slug
  }

  /** Creates a course owned by `ownerId`. A missing or empty title is refused
      before the store or the slug is touched. The store's schema gives a new
      course the status DRAFT. */
  method CreateCourse(st: Store, ownerId: Id, input: CourseInput, newId: Id, now: Millis,
                      draws: seq<string>)
    returns (r: Result<Change<Course>>)
    requires newId !in st.courses
    requires forall i :: 0 <= i < |draws| ==> Slug.IsNanoSuffix(draws[i])
    requires Truthy(input.title) ==>
               Slug.ReachesFreeSlug(Slug.BaseSlug(input.title.value), SlugsInUse(st), draws)
    ensures r.Err? <==> !Truthy(input.title)
    ensures r.Err? ==> r.error == TitleRequired
    ensures r.Ok? ==>
      var c := r.value.record;
      var base := Slug.BaseSlug(input.title.value);
      && r.value.store == st.(courses := st.courses[newId := c])
      && c.id == newId && c.ownerId == ownerId && c.title == input.title.value
      && c.slug !in SlugsInUse(st)
      && Slug.IsSlug(c.slug)
      && (c.slug == base || exists d :: Slug.IsNanoSuffix(d) && c.slug == Slug.Suffixed(base, d))
      && (Truthy(input.level) ==> c.level == input.level.value)
      && (!Truthy(input.level) ==> c.level == "BEGINNER")
      && (Truthy(input.language) ==> c.language == input.language.value)
      && (!Truthy(input.language) ==> c.language == "English")
      && (input.isPaid.Some? ==> c.isPaid == input.isPaid.value)
      && (input.isPaid.None? ==> c.isPaid)
      && (input.isPracticeTestCourse.Some? ==> c.isPracticeTestCourse == input.isPracticeTestCourse.value)
      && (input.isPracticeTestCourse.None? ==> !c.isPracticeTestCourse)
      && (input.hasCertificate.Some? ==> c.hasCertificate == input.hasCertificate.value)
      && (input.hasCertificate.None? ==> c.hasCertificate)
      && (input.isQnAEnabled.Some? ==> c.isQnAEnabled == input.isQnAEnabled.value)
      && (input.isQnAEnabled.None? ==> c.isQnAEnabled)
      && c.subtitle == input.subtitle && c.description == input.description
      && c.categoryId == input.categoryId && c.estimatedHours == input.estimatedHours
      && c.sortDescription.None? && c.thumbnailUrl.None? && c.promoVideoUrl.None?
      && c.status == Draft && c.deletedAt.None? && c.createdAt == now
    ensures r.Ok? && Valid(st) ==> Valid(r.value.store)
  {
    if !Truthy(input.title) {
      return Err(TitleRequired);
    }
    var title := input.title.value;
    var base := Slug.BaseSlug(title);
    var slug, used := Slug.ChooseSlug(base, SlugsInUse(st), draws);
    if used > 0 {
      Slug.SuffixedIsSlug(base, draws[used - 1]);
    }
    var c := Course(
      newId, ownerId, title, slug,
      input.subtitle, input.description, None, input.categoryId,
      OrElse(input.level, "BEGINNER"),
      OrElse(input.language, "English"),
      input.estimatedHours,
      Coalesce(input.isPaid, true),
      Coalesce(input.isPracticeTestCourse, false),
      Coalesce(input.hasCertificate, true),
      Coalesce(input.isQnAEnabled, true),
      Draft, now, None, None, None);
    r := Ok(Change(st.(courses := st.courses[newId := c]), c));
  }

  /** The owner's listing filter as the query writes it: not pending deletion,
      or pending with `deletedAt >= now - 24h` (a null `deletedAt` never
      satisfies the comparison). */
  predicate ListedForOwner(c: Course, now: Millis) {
    c.status != PendingDeletion || (c.deletedAt.Some? && c.deletedAt.value >= now - GracePeriodMs)
  }

  /** All courses of `ownerId` except those pending deletion whose grace period
      is over. */
  function FindCoursesByOwner(st: Store, ownerId: Id, now: Millis): (r: map<Id, Course>)
    ensures forall id :: id in r <==>
      && id in st.courses
      && st.courses[id].ownerId == ownerId
      && (|| st.courses[id].status != PendingDeletion
          || (st.courses[id].deletedAt.Some? && WithinGrace(st.courses[id].deletedAt.value, now)))
    ensures forall id :: id in r ==> r[id] == st.courses[id]
  {
    map id | id in st.courses && st.courses[id].ownerId == ownerId
                              && ListedForOwner(st.courses[id], now)
      :: st.courses[id]
  }

  /** JavaScript's `deletedAt < instant` on a nullable Date: null converts to 0. */
  predicate JsBefore(deletedAt: Option<Millis>, instant: Millis) {
    match deletedAt
    case None => 0 < instant
    case Some(d) => d < instant
  }

  /** One course of `ownerId`, or `None` when it does not exist, belongs to
      someone else, or is pending deletion past the grace period. */
  function FindCourseByIdAndOwner(st: Store, courseId: Id, ownerId: Id, now: Millis)
    : (r: Option<Course>)
    ensures r.Some? ==> courseId in st.courses && r.value == st.courses[courseId]
    ensures r.Some? <==>
      && courseId in st.courses
      && st.courses[courseId].ownerId == ownerId
      && (|| st.courses[courseId].status != PendingDeletion
          || (st.courses[courseId].deletedAt.Some?
              && WithinGrace(st.courses[courseId].deletedAt.value, now))
          || (st.courses[courseId].deletedAt.None? && now <= GracePeriodMs))
  {
    if courseId in st.courses && st.courses[courseId].ownerId == ownerId then
      var c := st.courses[courseId];
      if c.status == PendingDeletion && JsBefore(c.deletedAt, now - GracePeriodMs) then None
      else Some(c)
    else None
  }

  /** The fields of a course update that the model follows; `None` leaves a
      field as it is, as an absent key does in the update. */
  datatype CoursePatch = CoursePatch(
    title: Option<string>,
    subtitle: Option<string>,
    description: Option<string>,
    level: Option<string>,
    language: Option<string>,
    isPaid: Option<bool>,
    status: Option<Status>,
    thumbnailUrl: Option<string>,
    promoVideoUrl: Option<string>)

  function Pick<T>(v: Option<T>, current: T): T {
    if v.Some? then v.value else current
  }

  function PickNullable<T>(v: Option<T>, current: Option<T>): Option<T> {
    if v.Some? then v else current
  }

  function ApplyCoursePatch(c: Course, p: CoursePatch): Course {
    c.(title := Pick(p.title, c.title),
       subtitle := PickNullable(p.subtitle, c.subtitle),
       description := PickNullable(p.description, c.description),
       level := Pick(p.level, c.level),
       language := Pick(p.language, c.language),
       isPaid := Pick(p.isPaid, c.isPaid),
       status := Pick(p.status, c.status),
       thumbnailUrl := PickNullable(p.thumbnailUrl, c.thumbnailUrl),
       promoVideoUrl := PickNullable(p.promoVideoUrl, c.promoVideoUrl))
  }

  /** Updates a course after the existence and ownership checks. */
  function UpdateCourse(st: Store, courseId: Id, ownerId: Id, p: CoursePatch)
    : (r: Result<Change<Course>>)
    ensures courseId !in st.courses ==> r == Err(CourseNotFound)
    ensures courseId in st.courses && st.courses[courseId].ownerId != ownerId ==> r == Err(Forbidden)
    ensures r.Ok? <==> courseId in st.courses && st.courses[courseId].ownerId == ownerId
    ensures r.Ok? ==>
      var old_ := st.courses[courseId];
      var c := r.value.record;
      && r.value.store == st.(courses := st.courses[courseId := c])
      && c.id == old_.id && c.ownerId == old_.ownerId && c.slug == old_.slug
      && c.createdAt == old_.createdAt && c.deletedAt == old_.deletedAt
      && (p.title.Some? ==> c.title == p.title.value)
      && (p.title.None? ==> c.title == old_.title)
      && (p.status.Some? ==> c.status == p.status.value)
      && (p.status.None? ==> c.status == old_.status)
      && (p.thumbnailUrl.Some? ==> c.thumbnailUrl == p.thumbnailUrl)
      && (p.thumbnailUrl.None? ==> c.thumbnailUrl == old_.thumbnailUrl)
      && (p.subtitle.Some? ==> c.subtitle == p.subtitle)
      && (p.subtitle.None? ==> c.subtitle == old_.subtitle)
      && (p.description.Some? ==> c.description == p.description)
      && (p.description.None? ==> c.description == old_.description)
      && (p.level.Some? ==> c.level == p.level.value)
      && (p.level.None? ==> c.level == old_.level)
      && (p.language.Some? ==> c.language == p.language.value)
      && (p.language.None? ==> c.language == old_.language)
      && (p.isPaid.Some? ==> c.isPaid == p.isPaid.value)
      && (p.isPaid.None? ==> c.isPaid == old_.isPaid)
      && (p.promoVideoUrl.Some? ==> c.promoVideoUrl == p.promoVideoUrl)
      && (p.promoVideoUrl.None? ==> c.promoVideoUrl == old_.promoVideoUrl)
      && c.(title := old_.title, subtitle := old_.subtitle, description := old_.description,
            level := old_.level, language := old_.language, isPaid := old_.isPaid,
            status := old_.status, thumbnailUrl := old_.thumbnailUrl,
            promoVideoUrl := old_.promoVideoUrl) == old_
    ensures r.Ok? && Valid(st) ==> Valid(r.value.store)
  {
    if courseId !in st.courses then Err(CourseNotFound)
    else if st.courses[courseId].ownerId != ownerId then Err(Forbidden)
    else
      var c := ApplyCoursePatch(st.courses[courseId], p);
      Ok(Change(st.(courses := st.courses[courseId := c]), c))
  }

  /** Marks a course as pending deletion at `now`. There is no state check, so
      deleting a course that is already pending restarts its grace period. */
  function SoftDeleteCourse(st: Store, courseId: Id, ownerId: Id, now: Millis)
    : (r: Result<Change<Course>>)
    ensures courseId !in st.courses ==> r == Err(CourseNotFound)
    ensures courseId in st.courses && st.courses[courseId].ownerId != ownerId ==> r == Err(Forbidden)
    ensures r.Ok? <==> courseId in st.courses && st.courses[courseId].ownerId == ownerId
    ensures r.Ok? ==>
      && r.value.record == st.courses[courseId].(status := PendingDeletion, deletedAt := Some(now))
      && r.value.store == st.(courses := st.courses[courseId := r.value.record])
    ensures r.Ok? && Valid(st) ==> Valid(r.value.store)
  {
    if courseId !in st.courses then Err(CourseNotFound)
    else if st.courses[courseId].ownerId != ownerId then Err(Forbidden)
    else
      var c := st.courses[courseId].(status := PendingDeletion, deletedAt := Some(now));
      Ok(Change(st.(courses := st.courses[courseId := c]), c))
  }

  /** The restore test: pending deletion with a deletion instant at most 24
      hours before `now`. */
  predicate CourseRestorable(c: Course, now: Millis) {
    c.status == PendingDeletion && c.deletedAt.Some? && WithinGrace(c.deletedAt.value, now)
  }

  /** Restores a course to DRAFT. The checks run in the order: existence
      ("Course not found."), ownership (FORBIDDEN), pending state (NOT_RESTORABLE),
      grace period (NOT_RESTORABLE). */
  function RestoreCourseById(st: Store, courseId: Id, ownerId: Id, now: Millis)
    : (r: Result<Change<Course>>)
    ensures courseId !in st.courses ==> r == Err(CourseNotFound)
    ensures courseId in st.courses && st.courses[courseId].ownerId != ownerId ==> r == Err(Forbidden)
    ensures (&& courseId in st.courses && st.courses[courseId].ownerId == ownerId
             && !CourseRestorable(st.courses[courseId], now)) ==> r == Err(NotRestorable)
    ensures r.Ok? <==>
      && courseId in st.courses
      && st.courses[courseId].ownerId == ownerId
      && st.courses[courseId].status == PendingDeletion
      && st.courses[courseId].deletedAt.Some?
      && now - st.courses[courseId].deletedAt.value <= 24 * 60 * 60 * 1000
    ensures r.Ok? ==>
      && r.value.record == st.courses[courseId].(status := Draft, deletedAt := None)
      && r.value.store == st.(courses := st.courses[courseId := r.value.record])
    ensures r.Ok? && Valid(st) ==> Valid(r.value.store)
  {
    if courseId !in st.courses then Err(CourseNotFound)
    else
      var c := st.courses[courseId];
      if c.ownerId != ownerId then Err(Forbidden)
      else if c.status != PendingDeletion || c.deletedAt.None? then Err(NotRestorable)
      else if now - c.deletedAt.value > GracePeriodMs then Err(NotRestorable)
      else
        var c' := c.(status := Draft, deletedAt := None);
        Ok(Change(st.(courses := st.courses[courseId := c']), c'))
  }

  /** Soft delete followed by a restore inside the grace period gives back the
      course with status DRAFT and every other field as before; an active
      draft comes back unchanged. */
  lemma DeleteThenRestore(st: Store, courseId: Id, ownerId: Id, t0: Millis, t1: Millis)
    requires courseId in st.courses && st.courses[courseId].ownerId == ownerId
    requires t0 <= t1 <= t0 + GracePeriodMs
    ensures SoftDeleteCourse(st, courseId, ownerId, t0).Ok?
    ensures var st1 := SoftDeleteCourse(st, courseId, ownerId, t0).value.store;
            var r := RestoreCourseById(st1, courseId, ownerId, t1);
            && r.Ok?
            && r.value.record == st.courses[courseId].(status := Draft, deletedAt := None)
            && (st.courses[courseId].status == Draft && st.courses[courseId].deletedAt.None?
                ==> r.value.store == st)
  {
    var st1 := SoftDeleteCourse(st, courseId, ownerId, t0).value.store;
    var r := RestoreCourseById(st1, courseId, ownerId, t1);
    if st.courses[courseId].status == Draft && st.courses[courseId].deletedAt.None? {
      assert r.value.record == st.courses[courseId];
      assert r.value.store.courses == st.courses;
    }
  }

  /** Soft-deleting a course that is already pending restarts the clock: the
      course can be restored for another 24 hours from the second deletion,
      even when the first deletion is already older than that. */
  lemma RedeleteRestartsGracePeriod(st: Store, courseId: Id, ownerId: Id, t1: Millis, t2: Millis)
    requires courseId in st.courses && st.courses[courseId].ownerId == ownerId
    requires st.courses[courseId].status == PendingDeletion
    requires st.courses[courseId].deletedAt.Some?
    requires t1 - st.courses[courseId].deletedAt.value > GracePeriodMs
    requires t1 <= t2 <= t1 + GracePeriodMs
    ensures RestoreCourseById(st, courseId, ownerId, t1) == Err(NotRestorable)
    ensures SoftDeleteCourse(st, courseId, ownerId, t1).Ok?
    ensures RestoreCourseById(SoftDeleteCourse(st, courseId, ownerId, t1).value.store,
                              courseId, ownerId, t2).Ok?
  {
  }
}
