# lms-api course core, modelled in Dafny

This project models the instructor side of the lms-api learning platform:
creating, listing, updating, soft-deleting and restoring courses, sections
and lectures. It also covers the hourly retention sweeper that purges what
stayed deleted for more than 24 hours, the consumer of the video processor's
results, the upload dispatcher, and the public course catalogue and search.

The database is an in-memory store of three maps: courses, sections and
lectures, each keyed by id (`Entities.Store`). A lecture belongs to a
section and a section to a course. The owner of a section or lecture is
found through that parent chain. `Entities.Valid` states the foreign keys
the database enforces. Every service call becomes a pure function or a
short method over the store:

- the current time is a parameter `now` in milliseconds;
- nanoid outputs are a sequence of draws;
- the file system is a set of blob keys;
- the message broker is a sequence of sent jobs plus a flag saying whether
  the channel is open.

Thrown errors become `Err` values of `Entities.Result`.

Modules follow the source files:

| module | file | source |
|---|---|---|
| `Entities` | entities.dfy | records, errors, the 24-hour window |
| `Ownership` | ownership.dfy | owner resolution and active-sibling sets |
| `Listing` | listing.dfy | `orderBy` listings |
| `Slug` | slug.dfy | slug derivation in `createCourse` |
| `CourseService` | course_service.dfy | src/services/instructor/course.service.js |
| `SectionService` | section_service.dfy | src/services/instructor/section.service.js |
| `LectureService` | lecture_service.dfy | src/services/instructor/lecture.service.js |
| `CronService` | cron_service.dfy | src/services/shared/cron.service.js |
| `ResultConsumer` | result_consumer.dfy | src/shared/rabbitMq.js |
| `PublicCourses` | public_search.dfy | src/services/public/course.service.js |
| `Consistency` | consistency.dfy | properties that span several files |

Behaviour of the code as written that the model keeps and makes visible:

- Courses, sections and lectures follow different deletion rules. A course
  can be restored for 24 hours, and the boundary counts as inside. A section
  or lecture can be restored at any time until the sweeper removes it
  (`Consistency.SectionRestorableUntilSwept`).
- `orderIndex` is the number of active siblings at create or restore time.
  Soft delete never renumbers, so indices can collide
  (`Consistency.OrderIndexCollision`).
- `findCourseByIdAndOwner` compares a nullable `deletedAt` with a Date. In
  JavaScript a null there becomes 0. A course pending deletion with a null
  `deletedAt` is therefore hidden by the by-id lookup except in the first 24
  hours of the epoch, and the listing never shows it
  (`Consistency.OwnerViewsAgree`). Only `updateCourse` can create such a
  course, because it writes the request body as is.
- The public search does not filter on status. With no parameters it matches
  every stored course, drafts and courses pending deletion included
  (`Consistency.DefaultSearchMatchesEveryCourse`). `findAllCourses` does
  filter on PUBLISHED.
- `handleLectureVideoUpload` writes `videoUrl` before it sends the job. If
  sending throws, the lecture keeps its new path and no job is queued. In
  index.js the broker connection is commented out (index.js:13, 56), so the
  channel is never opened and every upload takes this path. The model's
  `channelOpen` flag covers both cases.
- The public search controller passes the single `query` string where the
  service expects an object of parameters
  (src/controllers/public/course.controller.js:15-16). The model describes
  the service, which receives a parameters record.

## Model

| member | source | states |
|---|---|---|
| `Entities.CutoffComplementsGrace` | src/services/shared/cron.service.js:29-36 | The sweeper's `deletedAt < now - 24h` holds exactly when the restore test `now - deletedAt <= 24h` fails, so the two never overlap and leave no gap |
| `Listing.SortByKey` | src/services/instructor/section.service.js:87-95 | A listing ordered by one column holds every selected row once, nothing else, in ascending key order; ties are left in any order |
| `Slug.ToLower` | src/services/instructor/course.service.js:11 | Lower-casing keeps the length and maps each character on its own: ASCII capitals become small letters, everything else stays |
| `Slug.DashSpaceRuns` | src/services/instructor/course.service.js:12 | After `replace(/\s+/g, "-")` no whitespace is left and the string is no longer |
| `Slug.DashSpaceRunsKeepsPlain` | src/services/instructor/course.service.js:12 | Text without whitespace comes back unchanged |
| `Slug.DashSpaceRunsSplit` | src/services/instructor/course.service.js:12 | For whitespace-free `t`, a non-empty whitespace run `w` and a rest `b` that does not start with whitespace, `t + w + b` becomes `t`, one `-`, then the result for `b`. With the previous row this fixes the value on every input |
| `Slug.DashSpaceRunsOfSpaces` | src/services/instructor/course.service.js:12 | A non-empty run of whitespace alone becomes exactly `-` |
| `Slug.DashSpaceRunsKeepsText` | src/services/instructor/course.service.js:12 | Replacing whitespace runs keeps every character that is neither whitespace nor a dash, as often as it occurs in the input |
| `Slug.KeepSlugChars` | src/services/instructor/course.service.js:13 | After stripping, only `[a-z0-9-]` remains |
| `Slug.KeepSlugCharsKeepsSlugChars` | src/services/instructor/course.service.js:13 | Stripping removes only characters outside `[a-z0-9-]`: every slug character occurs as often as in the input |
| `Slug.KeepSlugCharsAppend` | src/services/instructor/course.service.js:13 | Stripping distributes over concatenation and keeps a single character iff it is in `[a-z0-9-]`. This fixes its value: the slug characters in their input order |
| `Slug.BaseSlug` | src/services/instructor/course.service.js:10-13 | The base slug of any title contains only `[a-z0-9-]` and is no longer than the title |
| `Slug.SlugIsFixedPoint` | src/services/instructor/course.service.js:10-13 | A string already in slug form is its own base slug |
| `Slug.BaseSlugIdempotent` | src/services/instructor/course.service.js:10-13 | Slugifying a slug leaves it unchanged |
| `Slug.BaseSlugExample` | src/services/instructor/course.service.js:10-13 | "Go  C+" becomes "go-c": a run of two spaces gives one dash and `+` disappears |
| `Slug.ChooseSlug` | src/services/instructor/course.service.js:14-19 | The chosen slug is unused. It is the base when the base is free. Otherwise it is the base, a dash and the first drawn suffix that is free, and every earlier draw was taken |
| `Slug.SuffixedIsSlug` | src/services/instructor/course.service.js:17-18 | A suffixed slug is the base, `-` and six characters of `0-9a-f`: 7 characters longer and still in slug form |
| `CourseService.CreateCourse` | src/services/instructor/course.service.js:5-44 | Fails with "Course title is required." iff the title is missing or empty. Otherwise the stored course has a fresh slug in slug form, either the base or the base plus one nanoid suffix. `level` and `language` fall back on every falsy value. The four flags fall back only when missing, so an explicit `false` is kept. `subtitle`, `description`, `categoryId` and `estimatedHours` are copied from the input, and the short description and both media paths are null. The course is a DRAFT created at `now` with a null `deletedAt` |
| `CourseService.FindCoursesByOwner` | src/services/instructor/course.service.js:47-63 | Lists exactly the owner's courses that are not pending deletion, or are pending with a `deletedAt` inside the restore window, each as stored |
| `CourseService.FindCourseByIdAndOwner` | src/services/instructor/course.service.js:66-88 | Returns the stored course iff it exists, belongs to the owner and is not pending deletion past the window. A pending course with a null `deletedAt` is visible only while `now <= 24h` |
| `CourseService.UpdateCourse` | src/services/instructor/course.service.js:92-109 | Missing course gives "Course not found.", another owner gives FORBIDDEN, and on error the store is unchanged. A success writes each of the nine patchable columns when it is given and keeps it otherwise, and replaces only the one stored course. The columns outside the patch are unchanged, among them id, owner, slug, `createdAt` and `deletedAt`. This holds because the model's patch cannot carry them, whereas the source forwards the whole request body |
| `CourseService.SoftDeleteCourse` | src/services/instructor/course.service.js:111-131 | Same error order as update. A success sets status PENDING_DELETION and `deletedAt = now` and changes nothing else, whatever the previous state |
| `CourseService.RestoreCourseById` | src/services/instructor/course.service.js:133-156 | Errors in the order not found, FORBIDDEN, NOT_RESTORABLE. Succeeds iff the owner matches, the status is PENDING_DELETION, `deletedAt` is set and at most 24h old. The result is a DRAFT with a null `deletedAt` and every other field kept |
| `CourseService.DeleteThenRestore` | src/services/instructor/course.service.js:111-156 | A soft delete followed by a restore within 24 hours succeeds and gives back the course as a DRAFT. An active draft comes back to exactly the original store |
| `CourseService.RedeleteRestartsGracePeriod` | src/services/instructor/course.service.js:124-130 | Deleting an already-pending course restarts its clock: a course past its window becomes restorable again for 24 hours |
| `SectionService.VerifyCourseOwnership` | src/services/instructor/section.service.js:52-61 | Succeeds with the course iff it exists, belongs to the owner and has a null `deletedAt`; every failure is FORBIDDEN |
| `SectionService.CreateSectionForCourse` | src/services/instructor/section.service.js:64-80 | Fails FORBIDDEN iff the course check fails. Otherwise it adds one active section whose `orderIndex` is the number of the course's other active sections |
| `SectionService.FindSectionsByCourse` | src/services/instructor/section.service.js:83-96 | On a store whose records sit under their own ids, after the course check, lists exactly the course's sections with a null `deletedAt`, each once, by ascending `orderIndex` |
| `SectionService.FindDeletedSectionsByCourse` | src/services/instructor/section.service.js:35-49 | On a store whose records sit under their own ids, after the course check, lists exactly the course's sections with a `deletedAt`, each once, most recently deleted first. This is the complement of the active list within the course |
| `SectionService.UpdateSectionById` | src/services/instructor/section.service.js:99-121 | FORBIDDEN for a missing, foreign or soft-deleted section. Otherwise only `title` and `orderIndex` change, each only when given |
| `SectionService.SoftDeleteSectionById` | src/services/instructor/section.service.js:124-141 | FORBIDDEN for a missing or foreign section. Otherwise only `deletedAt = now` changes, the section leaves the active set, and no sibling is renumbered |
| `SectionService.RestoreSectionById` | src/services/instructor/section.service.js:3-33 | FORBIDDEN first, then NOT_RESTORABLE iff `deletedAt` is null, with no time limit. A success clears `deletedAt` and sets `orderIndex` to the active count before the restore |
| `LectureService.VerifyLectureOwnership` | src/services/instructor/lecture.service.js:5-14 | Succeeds iff the lecture exists and `lecture.section.course.ownerId` is the owner; deletion states play no part; failure is FORBIDDEN |
| `LectureService.VerifySectionOwnership` | src/services/instructor/lecture.service.js:17-26 | Succeeds iff the section exists and `section.course.ownerId` is the owner, deleted or not; failure is FORBIDDEN |
| `LectureService.CreateLectureForSection` | src/services/instructor/lecture.service.js:28-40 | Fails FORBIDDEN iff the section check fails. Otherwise it adds one active lecture whose `orderIndex` is the number of the section's other active lectures, not previewable, with no description, video or duration |
| `LectureService.FindLecturesBySection` | src/services/instructor/lecture.service.js:42-48 | Lists exactly the section's lectures with a null `deletedAt`, each once, by ascending `orderIndex` |
| `LectureService.FindDeletedLecturesBySection` | src/services/instructor/lecture.service.js:50-56 | Lists exactly the section's lectures with a `deletedAt`, each once, most recently deleted first |
| `LectureService.UpdateLectureById` | src/services/instructor/lecture.service.js:58-68 | After the lecture check, only `title`, `description` and `isPreviewable` may change, each only when given; a soft-deleted lecture can be updated |
| `LectureService.SoftDeleteLectureById` | src/services/instructor/lecture.service.js:70-76 | After the lecture check, only `deletedAt = now` changes and the lecture leaves the active set |
| `LectureService.RestoreLectureById` | src/services/instructor/lecture.service.js:78-94 | FORBIDDEN before NOT_RESTORABLE, and NOT_RESTORABLE iff `deletedAt` is null, with no time limit. A success clears `deletedAt` and appends the lecture after the active ones |
| `LectureService.ForwardSlashes` | src/services/instructor/lecture.service.js:98 | Replacing backslashes keeps the length, turns every `\` into `/` and keeps every other character |
| `LectureService.WebPath` | src/services/instructor/lecture.service.js:98 | The web path is one longer than the upload path, starts with `/`, has no backslash and keeps every other character in place |
| `LectureService.HandleLectureVideoUpload` | src/services/instructor/lecture.service.js:96-117 | A failed ownership check changes nothing and sends nothing. Otherwise `videoUrl` is written. With an open channel, exactly one persistent job `{lectureId, fileName}` is appended for `video_processing_queue`. With no channel, the call fails after the write and sends nothing |
| `CronService.DeleteMediaFile` | src/services/shared/cron.service.js:11-26 | A null or empty path does nothing. Otherwise only the path's key, the path without its first character, may disappear. It does disappear unless its deletion fails with an error other than "not found" |
| `CronService.DeleteMediaFiles` | src/services/shared/cron.service.js:53-61 | Deleting the files of a set of paths one after the other removes exactly their keys, except those whose deletion fails |
| `CronService.PurgeCourses` | src/services/shared/cron.service.js:63-68 | Removes exactly the given courses, their sections and those sections' lectures, and keeps every other record unchanged |
| `CronService.PurgeSections` | src/services/shared/cron.service.js:91-96 | Removes exactly the given sections and their lectures; courses and every other record stay |
| `CronService.PurgeLectures` | src/services/shared/cron.service.js:117-122 | Removes exactly the given lectures and nothing else |
| `CronService.RunPhase` | src/services/shared/cron.service.js:48-68 | A failing query changes nothing. An empty selection returns before deleting anything. Otherwise the media go first and then the removal, and a failing removal leaves the store as it was with the media already deleted |
| `CronService.CleanupExpiredCourses` | src/services/shared/cron.service.js:28-69 | Selects courses pending deletion with `deletedAt` strictly before `now - 24h`. It deletes their thumbnails, promo videos and the videos of every lecture of every section, deleted ones included, then purges them. An empty selection changes nothing |
| `CronService.CleanupExpiredSections` | src/services/shared/cron.service.js:71-97 | Selects sections deleted strictly before `now - 24h`, deletes all their lectures' videos, then purges them. A failing query changes nothing. A failing removal keeps the store with the videos already gone |
| `CronService.CleanupExpiredLectures` | src/services/shared/cron.service.js:99-123 | Selects lectures deleted strictly before `now - 24h`, deletes their videos, then purges them. A failing query changes nothing. A failing removal keeps the store with the videos already gone |
| `CronService.RunAllCleanupTasks` | src/services/shared/cron.service.js:125-138 | Runs courses, sections, then lectures. With no fault the result is the full sweep and exactly its media are deleted. A fault in a phase stops the later ones and is swallowed. A failing query leaves the store and blobs as the earlier phases left them. A failing removal leaves the store as the earlier phases left it, with this phase's media already deleted. A removal fault with an empty selection does not stop the sweep. Every case fixes both the store and the remaining blobs |
| `CronService.SweptExactly` | src/services/shared/cron.service.js:33-37 | After a sweep, a course is gone iff it expired, a section iff it or its course expired, and a lecture iff it, its section or its course expired. Every survivor is unchanged |
| `CronService.SweptLeavesNothingExpired` | src/services/shared/cron.service.js:75-76 | After a sweep nothing is selectable by any phase at the same instant |
| `CronService.SweepIdempotent` | src/services/shared/cron.service.js:125-138 | A second sweep at the same instant removes nothing and deletes no media |
| `ResultConsumer.HandleResultMessage` | src/shared/rabbitMq.js:34-88 | Every message is acked exactly once, also when parsing or the update throws, and a cancelled delivery is not acked. COMPLETED writes `videoUrl` and the duration from `hls_url` and `duration` (a null clears the column, a missing field leaves it), FAILED clears `videoUrl` only, and any other status or an unknown lecture changes nothing. No other record changes |
| `ResultConsumer.HandleTwiceIsHandleOnce` | src/shared/rabbitMq.js:46-70 | Handling the same result a second time leaves the store as after the first |
| `PublicCourses.FindAllCourses` | src/services/public/course.service.js:3-35 | On a store whose records sit under their own ids, lists exactly the PUBLISHED courses, each once |
| `PublicCourses.BuildFilters` | src/services/public/course.service.js:50-95 | A text filter iff the query is non-empty, category and level filters iff truthy, a paid filter iff `isPaid` is a boolean (so `false` filters); text comes first |
| `PublicCourses.ContainsIffOccurs` | src/services/public/course.service.js:60-63 | The substring test finds the query exactly when it starts at some position of the text |
| `PublicCourses.FiltersSelectExactly` | src/services/public/course.service.js:55-95 | The conjunction of the built filters holds of a course iff each given criterion does |
| `PublicCourses.TotalPages` | src/services/public/course.service.js:160 | For `limit > 0`, `totalPages` is the unique q with `(q-1)*limit < total <= q*limit`, that is `ceil(total/limit)`. A zero limit gives no finite value. A negative limit is handled symmetrically |
| `PublicCourses.SearchCourses` | src/services/public/course.service.js:39-163 | On a store whose records sit under their own ids: `page` defaults to 1 and `limit` to 10, and `skip = (page-1)*limit`. The page is the window `[skip, skip+limit)` of a newest-first listing of the matching courses. `total` counts the same matching set. With no paging parameters the page holds `min(total, 10)` courses |
| `Consistency.CourseWindowsAgree` | src/services/instructor/course.service.js:47-156 | For a course pending deletion with a `deletedAt`, the four grace-period checks agree at every instant: the by-id lookup shows it, the listing shows it, the restore accepts it and the sweeper leaves it |
| `Consistency.OwnerViewsAgree` | src/services/instructor/course.service.js:47-88 | The by-id lookup and the listing agree on every course except one pending deletion with a null `deletedAt`. The listing never shows that course, and the lookup shows it only while `now <= 24h` |
| `Consistency.SoftDeleteThenSweep` | src/services/shared/cron.service.js:28-69 | A course soft-deleted at `t0` survives a sweep at `now` iff it can still be restored at `now`, iff `now - t0 <= 24h` |
| `Consistency.SectionRestorableUntilSwept` | src/services/instructor/section.service.js:14-17 | A section deleted more than 24 hours ago can still be restored, and a sweep at that instant removes it |
| `Consistency.UploadedVideoKey` | src/services/shared/cron.service.js:14 | The sweeper's key for an uploaded video's web path is the upload path with forward slashes |
| `Consistency.UploadedVideoIsSwept` | src/services/instructor/lecture.service.js:96-104 | A video uploaded to a lecture that is later soft-deleted is among the files a sweep deletes once 24 hours have passed, whichever phase removes the lecture |
| `Consistency.StatusUpdateBypassesRestore` | src/services/instructor/course.service.js:92-109 | The update writes any given status, with no state check. A course past its restore window, which restore refuses and the sweep would remove, becomes visible again after an update to DRAFT and leaves the sweep's selection. Its old `deletedAt` is kept |
| `Consistency.DefaultSearchMatchesEveryCourse` | src/services/public/course.service.js:40-53 | With no parameters the search's filter list is empty and every stored course matches, whatever its status |
| `Consistency.OrderIndexCollision` | src/services/instructor/section.service.js:20-23 | With sections A(0) and B(1), deleting A and creating C gives C index 1, the same as B. Restoring A then gives it index 2 |

## Left out

- Controllers, routes, the auth wrappers and the HTTP status mapping are framework glue around the services.
- The upload middleware (multer) is left out because its file names depend on a clock and randomness. The model takes the stored file as a parameter.
- E-mail, logging, S3 set-up and the enrolment insert are left out: they are side effects outside the course core.
- The node-cron schedule and the broker's connect and `assertQueue` set-up are left out. A sweep takes `now` as a parameter, and the broker is a sequence of sent jobs.
- Real `fs.unlink` and `path.join` are replaced by a blob set keyed by the path minus its first character. Normalisation of `..` or doubled slashes by `path.join` is not modelled.
- Concurrency is not modelled. Two requests can read the same active count and write equal `orderIndex` values, or race on slugs. Operations run one at a time, and no uniqueness or contiguity of `orderIndex` is claimed.
- Database failures inside an operation are not modelled: `prisma.course.create` throwing "Could not create the course.", validation errors on ill-typed input, and a record vanishing between check and update. The exceptions are the sweeper's and the consumer's failure paths, which the model does follow.
- `CourseService.CreateCourse`: `toLowerCase` is modelled for ASCII letters only, so titles with non-ASCII capitals, whose Unicode lowercase may be a slug character, are not covered. The source loop only ends once nanoid draws an unused suffix, so the model requires that one of the given draws is unused.
- `CourseService.CreateCourse`: the stored status DRAFT comes from the database schema, which is not part of this model.
- `LectureService.CreateLectureForSection`: the lecture defaults (`isPreviewable` false, no description, no video, no duration) come from the database schema, which is not part of this model.
- `CourseService.UpdateCourse`: the request body is modelled as a patch of title, subtitle, description, level, language, `isPaid`, status and the two media paths. Other columns are not patchable in the model. A field explicitly set to null is not distinguished from a missing one.
- `SectionService.UpdateSectionById`: an explicit null in the update body is not modelled, only present or absent fields.
- `LectureService.UpdateLectureById`: an explicit null description is not modelled, only present or absent fields.
- `CronService.RunAllCleanupTasks`: one `now` serves all three phases, whereas each phase reads the clock again (`new Date()`). A sweep that straddles a deletion's 24-hour mark is therefore not covered.
- `CronService.CleanupExpiredCourses`: the removal of sections and lectures along with their course relies on a cascading foreign key. The schema is not part of this model.
- `CronService.CleanupExpiredSections`: the removal of lectures along with their section relies on a cascading foreign key, since the source only removes the sections. The schema is not part of this model.
- `ResultConsumer.HandleResultMessage`: the duration is an integer, whereas the JSON value may be fractional; floating point is not modelled.
- `PublicCourses.SearchCourses`: a negative skip or a negative limit is reported as `InvalidPagination`. The database refuses a negative skip. Its take-from-the-end meaning of a negative take is not modelled. Non-integer and string-typed `page` and `limit` values are not modelled.
- `PublicCourses.SearchCourses`: the case-insensitive match folds ASCII letters only, and a `%` or `_` in the query is taken literally.
- `PublicCourses.SearchCourses`: the returned rows carry whole course records. The field selection, the ratings and the country-specific price row (`countryCode`) are left out, since they do not affect which courses are returned.
- `PublicCourses.FindAllCourses`: the returned rows are whole course records, without the field selection or the prices.
