/** The course store shared by the instructor services, the retention sweeper
    and the video-result consumer.

    A course is owned directly by an instructor; a section belongs to a course
    and a lecture to a section, so the owner of a section or lecture is reached
    through its parent chain. Every database table is a map from id to record;
    a database call becomes a lookup or an update of one of these maps.
 */
module Entities {

  /** Database identifiers. */
  type Id = string

  /** Instants in milliseconds since the Unix epoch, as `Date.getTime()` gives them. */
  type Millis = int

  /** The grace period after a soft delete: 24 hours in milliseconds. */
  const GracePeriodMs: int := 24 * 60 * 60 * 1000

  datatype Option<T> = None | Some(value: T)

  /** Course status. `OtherStatus` stands for the schema's remaining values,
      which no core operation inspects. */
  datatype Status = Draft | Published | PendingDeletion | OtherStatus(name: string)

  datatype Course = Course(
    id: Id,
    ownerId: Id,
    title: string,
    slug: string,
    subtitle: Option<string>,
    description: Option<string>,
    sortDescription: Option<string>,
    categoryId: Option<Id>,
    level: string,
    language: string,
    estimatedHours: Option<int>,
    isPaid: bool,
    isPracticeTestCourse: bool,
    hasCertificate: bool,
    isQnAEnabled: bool,
    status: Status,
    createdAt: Millis,
    deletedAt: Option<Millis>,
    thumbnailUrl: Option<string>,
    promoVideoUrl: Option<string>)

  datatype Section = Section(
    id: Id,
    courseId: Id,
    title: string,
    orderIndex: int,
    deletedAt: Option<Millis>)

  datatype Lecture = Lecture(
    id: Id,
    sectionId: Id,
    title: string,
    description: Option<string>,
    isPreviewable: bool,
    orderIndex: int,
    deletedAt: Option<Millis>,
    videoUrl: Option<string>,
    videoDurationSeconds: Option<int>)

  datatype Store = Store(
    courses: map<Id, Course>,
    sections: map<Id, Section>,
    lectures: map<Id, Lecture>)

  /** Every record is filed under its own id, and every parent reference
      resolves (the database's foreign keys). */
  predicate Valid(st: Store) {
    && (forall id :: id in st.courses ==> st.courses[id].id == id)
    && (forall id :: id in st.sections ==>
          st.sections[id].id == id && st.sections[id].courseId in st.courses)
    && (forall id :: id in st.lectures ==>
          st.lectures[id].id == id && st.lectures[id].sectionId in st.sections)
  }

  /** The errors the services raise. `TitleRequired` and `CourseNotFound` carry
      the messages "Course title is required." and "Course not found.";
      `Forbidden` and `NotRestorable` are the machine-readable "FORBIDDEN" and
      "NOT_RESTORABLE". */
  datatype Error =
    | TitleRequired
    | CourseNotFound
    | Forbidden
    | NotRestorable
    | QueueUnavailable
    | InvalidPagination

  datatype Result<T> = Ok(value: T) | Err(error: Error)

  /** A successful mutation: the new store and the record the service returns. */
  datatype Change<T> = Change(store: Store, record: T)

  /** The restore-side test of the grace period: at most 24 hours have passed
      since the soft delete. */
  predicate WithinGrace(deletedAt: Millis, now: Millis) {
    now - deletedAt <= GracePeriodMs
  }

  /** The query-side test `deletedAt < now - 24h` that the sweeper and the
      owner's views build from a "twenty-four hours ago" instant. */
  predicate BeforeCutoff(deletedAt: Millis, now: Millis) {
    deletedAt < now - GracePeriodMs
  }

  /** The two formulations of the window are exact complements, so the
      restore test and the sweeper's cut-off never overlap and leave no gap. */
  lemma CutoffComplementsGrace(deletedAt: Millis, now: Millis)
    ensures BeforeCutoff(deletedAt, now) <==> !WithinGrace(deletedAt, now)
  {
  }

  /** JavaScript truthiness of a nullable string: null, undefined and "" are falsy. */
  predicate Truthy(s: Option<string>) {
    s.Some? && s.value != ""
  }
}
