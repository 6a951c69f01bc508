# db-migrator-starter: versioned migration jobs, modelled in Dafny

The repository moves rows from a legacy MySQL schema (`user`, `course`, `contact`) into a
Postgres schema (`users`, `course`, `contact`) through versioned jobs. Every job reads the
legacy table one page at a time (`LIMIT size OFFSET page * size`), writes target rows that
carry the job's version in a `version` column, reports the legacy row count (`getSize`), and can
roll its version back. There are two kinds of job:

- **creators** (version 1.0.0 of `UserJob`, `CourseJob`, `ContactJob`) copy fixed columns of
  each legacy row into a new target row through a Lombok builder that is reused across the
  loop, and save it with no existence check; rollback deletes the rows tagged with the version;
- **revisers** (`UserJob` 1.1.0, `CourseJob` 2.0.0) look a target row up by a business key
  (e-mail, course name). A found row gets one column (phone number, location) and the version;
  when nothing matches, a new row holding only that column and the version is saved. Rollback
  nulls that column on the rows tagged with the version, then retags them "1.0.0".

The model follows that structure:

| file | module | what it holds |
|---|---|---|
| `wrappers.dfy` | `Wrappers` | `Option`, with `GetOr` for `Optional.orElse` |
| `pages.dfy` | `Pages` | the legacy table as `seq<seq<string>>`, the page read, pages in order, the count query and `getSize` |
| `store.dfy` | `Store` | a target table: rows with an optional id, an optional version tag and entity columns, plus the identity sequence; `save`; the generic filter and update behind the bulk statements |
| `domain.dfy` | `Domain` | the columns of `Users`, `Course` and `Contact` |
| `user_repository.dfy`, `course_repository.dfy`, `contact_repository.dfy` | `UserRepository`, `CourseRepository`, `ContactRepository` | the derived finder and the three native statements of each repository, as pure table transformers |
| `user_job_v1_0_0.dfy`, `course_job_v1_0_0.dfy`, `contact_job_v1_0_0.dfy` | `UserJobV1_0_0`, `CourseJobV1_0_0`, `ContactJobV1_0_0` | the creator jobs |
| `user_job_v1_1_0.dfy`, `course_job_v2_0_0.dfy` | `UserJobV1_1_0`, `CourseJobV2_0_0` | the reviser jobs |
| `user_migration.dfy` | `UserMigration` | the two user jobs run and rolled back one after the other |

Modelling choices:

- A target table is a sequence of rows and the next identity value. `save` of a row without id
  appends it with the next identity value, which is never handed out twice, not even after a
  delete. `save` of a row whose id is stored replaces that row in place.
- `Store.Valid` states the primary key: every row has an id below the next identity value, and
  no two rows share one. `save`, every repository statement, and every job's `Migrate` and
  `Rollback` state that they keep it. The revisers also need it on entry, so that saving the found
  row rewrites exactly that row.
- `WHERE version = :v` matches a row only when its tag is present and equal to `v`
  (`Store.Tagged`). Following SQL, a row with a NULL tag is never matched.
- A finder returning `Optional` requires that at most one row carries the key, as Spring Data
  does: more than one match is an error there, and a precondition here.
- The creators' reused builder is modelled explicitly. The loop threads the builder through
  every row, and a lemma shows that every saved row still depends only on its own legacy row.
- Multi-page statements assume a driver that calls `migrate` for pages 0 .. n - 1 in order,
  with n = ceil(getSize / size). The repository defines only `migrate`, `getSize` and `rollback`,
  so this driver is an assumption of the model. For creators it is a recursive function; for
  revisers it is a loop with invariants.

A reviser lookup is not find-or-create. The row saved for an absent key gets only the phone
number (or location) and the version, never the e-mail (or name). A second run therefore cannot
find it and saves another one. `UserJobV1_1_0.RerunPage` and `CourseJobV2_0_0.RerunPage` state
this.

## Model

| member | source | states |
|---|---|---|
| Pages.OffsetIsProduct | src/main/java/com/example/demo/app/jobs/v1_0_0/UserJob.java:27 | the offset used for the page read is page * size |
| Pages.ReadPage | src/main/java/com/example/demo/app/jobs/v1_0_0/UserJob.java:27-31 | the page holds at most `size` rows; it is empty once the offset reaches the end, and otherwise holds min(size, n - offset) rows, row i being source row offset + i |
| Pages.ReadPagesIsPrefix | src/main/java/com/example/demo/app/jobs/v1_0_0/UserJob.java:27-31 | pages 0 .. count - 1 read one after the other are exactly the source prefix of length min(count * size, n) |
| Pages.PaginationComplete | src/main/java/com/example/demo/app/jobs/v1_0_0/UserJob.java:27-31 | for size >= 1, the pages 0 .. ceil(n / size) - 1 together are the source itself: no row missing, none twice, in order |
| Pages.SizeIsRowCount | src/main/java/com/example/demo/app/jobs/v1_0_0/UserJob.java:50-53 | over the count query, getSize is the number of legacy rows, including 0 for an empty table |
| Store.Save | src/main/java/com/example/demo/app/jobs/v1_1_0/UserJob.java:39 | a row without id is appended with the next identity value, which then advances; a row with a stored id replaces exactly the row with that id, and the identity sequence stays; the primary key stays valid |
| Store.SaveReplacesRow | src/main/java/com/example/demo/app/jobs/v1_1_0/UserJob.java:39 | in a valid table, saving a row with row j's id gives the table with row j replaced and nothing else changed |
| Store.UntaggedMultiset | src/main/java/com/example/demo/app/repository/postgres/UserRepository.java:15-17 | a delete by version keeps every row not tagged with it exactly as often as before, and no tagged row |
| Store.UntaggedKeepsValid | src/main/java/com/example/demo/app/repository/postgres/UserRepository.java:15-17 | deleting the rows of a version keeps the primary key valid |
| Store.UntaggedRemovesAppended | src/main/java/com/example/demo/app/repository/postgres/UserRepository.java:15-17 | deleting a version from untagged rows followed by rows all tagged with it gives back the untagged rows, in order |
| UserRepository.DeleteUsersByVersion | src/main/java/com/example/demo/app/repository/postgres/UserRepository.java:15-17 | exactly the rows tagged v disappear; every other row is kept with its contents and multiplicity; the identity sequence is unchanged; the primary key stays valid |
| UserRepository.FindByEmail | src/main/java/com/example/demo/app/repository/postgres/UserRepository.java:19 | with at most one row carrying the e-mail: empty exactly when no row carries it, otherwise that row |
| UserRepository.ResetPhoneNumber | src/main/java/com/example/demo/app/repository/postgres/UserRepository.java:21-23 | rows tagged v lose their phone number and keep every other column; other rows are unchanged; length and identity sequence unchanged; the primary key stays valid |
| UserRepository.ResetVersion | src/main/java/com/example/demo/app/repository/postgres/UserRepository.java:25-27 | exactly the rows tagged old get the new tag, and nothing else in any row changes; when old and new differ, no row is tagged old afterwards; the primary key stays valid |
| UserRepository.NullVersionNeverMatches | src/main/java/com/example/demo/app/repository/postgres/UserRepository.java:15-27 | a row with a NULL tag survives the delete and is untouched by both updates, whatever version is asked for |
| UserRepository.DeleteIdempotent | src/main/java/com/example/demo/app/repository/postgres/UserRepository.java:15-17 | deleting a version a second time changes nothing |
| UserRepository.ResetPhoneNumberIdempotent | src/main/java/com/example/demo/app/repository/postgres/UserRepository.java:21-23 | resetting the phone numbers of a version a second time changes nothing |
| UserRepository.ResetVersionIdempotent | src/main/java/com/example/demo/app/repository/postgres/UserRepository.java:25-27 | retagging old to new a second time changes nothing |
| CourseRepository.FindByName | src/main/java/com/example/demo/app/repository/postgres/CourseRepository.java:15 | with at most one course carrying the name: empty exactly when none does, otherwise that course |
| CourseRepository.DeleteCoursesByVersion | src/main/java/com/example/demo/app/repository/postgres/CourseRepository.java:17-19 | exactly the courses tagged v disappear, every other row is kept with its multiplicity, the identity sequence is unchanged; the primary key stays valid |
| CourseRepository.ResetLocation | src/main/java/com/example/demo/app/repository/postgres/CourseRepository.java:21-23 | courses tagged v lose their location and keep every other column; other rows unchanged; the primary key stays valid |
| CourseRepository.ResetVersion | src/main/java/com/example/demo/app/repository/postgres/CourseRepository.java:25-27 | exactly the courses tagged old are retagged, no other column changes; with old and new different no course is tagged old afterwards; the primary key stays valid |
| CourseRepository.RetagThenDeleteIsNoOp | src/main/java/com/example/demo/app/repository/postgres/CourseRepository.java:17-27 | after retagging v to a different w, deleting v removes nothing |
| ContactRepository.FindByFirstName | src/main/java/com/example/demo/app/repository/postgres/ContactRepository.java:15 | with at most one contact carrying the first name: empty exactly when none does, otherwise that contact |
| ContactRepository.DeleteContactsByVersion | src/main/java/com/example/demo/app/repository/postgres/ContactRepository.java:17-19 | exactly the contacts tagged v disappear, every other row is kept with its multiplicity; the primary key stays valid |
| ContactRepository.ResetCompany | src/main/java/com/example/demo/app/repository/postgres/ContactRepository.java:21-23 | contacts tagged v lose their company and keep every other column; other rows unchanged; the primary key stays valid |
| ContactRepository.ResetVersion | src/main/java/com/example/demo/app/repository/postgres/ContactRepository.java:25-27 | exactly the contacts tagged old are retagged, nothing else changes, the length is preserved; the primary key stays valid |
| ContactRepository.DeleteIdempotent | src/main/java/com/example/demo/app/repository/postgres/ContactRepository.java:17-19 | deleting a version of contacts twice deletes no more than once |
| UserJobV1_0_0.MigrateRowsAppends | src/main/java/com/example/demo/app/jobs/v1_0_0/UserJob.java:28-44 | although one builder serves the whole loop, the loop appends one user per legacy row, in order, with consecutive ids; each user has columns 4 to 8 of its own row, the version, and no birth date or phone number |
| UserJobV1_0_0.Migrate | src/main/java/com/example/demo/app/jobs/v1_0_0/UserJob.java:24-45 | the stored users are untouched, and one new user per page row is appended (columns 4 to 8, the version, consecutive fresh ids), so at most `size` rows are added; the primary key stays valid |
| UserJobV1_0_0.Size | src/main/java/com/example/demo/app/jobs/v1_0_0/UserJob.java:47-54 | getSize is the number of legacy user rows |
| UserJobV1_0_0.Rollback | src/main/java/com/example/demo/app/jobs/v1_0_0/UserJob.java:56-61 | no row tagged v is left; every other row is kept with its contents and multiplicity; the primary key stays valid |
| UserJobV1_0_0.RerunDuplicates | src/main/java/com/example/demo/app/jobs/v1_0_0/UserJob.java:43 | running a page twice adds its users twice: the second run's rows repeat the first run's columns and tag |
| UserJobV1_0_0.RollbackUndoesMigrate | src/main/java/com/example/demo/app/jobs/v1_0_0/UserJob.java:24-61 | when no stored row carries v, migrating a page with v and rolling v back gives back the stored rows |
| UserJobV1_0_0.RollbackIdempotent | src/main/java/com/example/demo/app/jobs/v1_0_0/UserJob.java:56-61 | rolling back twice is rolling back once |
| UserJobV1_0_0.MigratePagesAppends | src/main/java/com/example/demo/app/jobs/v1_0_0/UserJob.java:24-45 | pages 0 .. count - 1 append exactly the users created from the rows those pages read |
| UserJobV1_0_0.MigrateAllCreatesEachRowOnce | src/main/java/com/example/demo/app/jobs/v1_0_0/UserJob.java:24-54 | all pages that getSize calls for create exactly one user per legacy row, in source order |
| CourseJobV1_0_0.MigrateRowsAppends | src/main/java/com/example/demo/app/jobs/v1_0_0/CourseJob.java:28-40 | the reused builder still yields one course per legacy row, named by column 1, with the version and no date, time or location |
| CourseJobV1_0_0.Migrate | src/main/java/com/example/demo/app/jobs/v1_0_0/CourseJob.java:24-41 | stored courses untouched; one new course per page row appended with consecutive fresh ids; at most `size` rows added; the primary key stays valid |
| CourseJobV1_0_0.Size | src/main/java/com/example/demo/app/jobs/v1_0_0/CourseJob.java:43-50 | getSize is the number of legacy course rows |
| CourseJobV1_0_0.Rollback | src/main/java/com/example/demo/app/jobs/v1_0_0/CourseJob.java:52-57 | no course tagged v is left; every other row is kept with its multiplicity; the primary key stays valid |
| CourseJobV1_0_0.RerunDuplicates | src/main/java/com/example/demo/app/jobs/v1_0_0/CourseJob.java:39 | a second run of a page inserts its courses again |
| CourseJobV1_0_0.RollbackUndoesMigrate | src/main/java/com/example/demo/app/jobs/v1_0_0/CourseJob.java:24-57 | with v new to the table, migrate then rollback gives back the stored rows |
| CourseJobV1_0_0.RollbackIdempotent | src/main/java/com/example/demo/app/jobs/v1_0_0/CourseJob.java:52-57 | rolling back twice is rolling back once |
| CourseJobV1_0_0.MigratePagesAppends | src/main/java/com/example/demo/app/jobs/v1_0_0/CourseJob.java:24-41 | pages 0 .. count - 1 append exactly the courses created from the rows those pages read |
| CourseJobV1_0_0.MigrateAllCreatesEachRowOnce | src/main/java/com/example/demo/app/jobs/v1_0_0/CourseJob.java:24-50 | all pages getSize calls for create one course per legacy row, in order |
| ContactJobV1_0_0.MigrateRowsAppends | src/main/java/com/example/demo/app/jobs/v1_0_0/ContactJob.java:27-41 | the reused builder still yields one contact per legacy row, first name column 1, last name column 3, the version, no company |
| ContactJobV1_0_0.Migrate | src/main/java/com/example/demo/app/jobs/v1_0_0/ContactJob.java:23-42 | stored contacts untouched; one new contact per page row appended; the table grows by the page length; the primary key stays valid |
| ContactJobV1_0_0.Size | src/main/java/com/example/demo/app/jobs/v1_0_0/ContactJob.java:44-51 | getSize is the number of legacy contact rows |
| ContactJobV1_0_0.Rollback | src/main/java/com/example/demo/app/jobs/v1_0_0/ContactJob.java:54-59 | exactly the contacts tagged v go; rows with another tag or none stay with their multiplicity; the primary key stays valid |
| ContactJobV1_0_0.RerunDuplicates | src/main/java/com/example/demo/app/jobs/v1_0_0/ContactJob.java:40 | a second run of a page inserts its contacts again |
| ContactJobV1_0_0.RollbackUndoesMigrate | src/main/java/com/example/demo/app/jobs/v1_0_0/ContactJob.java:23-59 | with v new to the table, migrate then rollback gives back the stored rows |
| ContactJobV1_0_0.RollbackIdempotent | src/main/java/com/example/demo/app/jobs/v1_0_0/ContactJob.java:54-59 | rolling back twice is rolling back once |
| ContactJobV1_0_0.MigratePagesAppends | src/main/java/com/example/demo/app/jobs/v1_0_0/ContactJob.java:23-42 | pages 0 .. count - 1 append exactly the contacts created from the rows those pages read |
| ContactJobV1_0_0.MigrateAllCreatesEachRowOnce | src/main/java/com/example/demo/app/jobs/v1_0_0/ContactJob.java:23-51 | all pages getSize calls for create one contact per legacy row, in order |
| ContactJobV1_0_0.MigrateAllThenRollbackIsEmpty | src/main/java/com/example/demo/app/jobs/v1_0_0/ContactJob.java:23-59 | all pages into an empty table and a rollback of the same version leave the table empty, with the identity sequence advanced by the row count |
| UserJobV1_1_0.MigrateRow | src/main/java/com/example/demo/app/jobs/v1_1_0/UserJob.java:35-39 | the user with the row's e-mail gets phone column 3 and the version, and nothing else in the table changes; with no such user, exactly one row is appended holding only that phone number, the version and a fresh id; the primary key stays valid |
| UserJobV1_1_0.MigrateRows | src/main/java/com/example/demo/app/jobs/v1_1_0/UserJob.java:31-40 | the loop keeps the primary key valid, leaves every stored e-mail in place, moves stored rows only to the version, and adds only rows without e-mail tagged with the version |
| UserJobV1_1_0.MigrateRowsOutcome | src/main/java/com/example/demo/app/jobs/v1_1_0/UserJob.java:31-40 | after the loop every stored user is revised by the last page row with its e-mail (phone and version only) or left alone, and one new row is appended per row whose e-mail matched no stored user, in row order |
| UserJobV1_1_0.ShellsShape | src/main/java/com/example/demo/app/jobs/v1_1_0/UserJob.java:35-37 | every appended row has an id, the version and a phone number, and every other column empty, the e-mail included |
| UserJobV1_1_0.Migrate | src/main/java/com/example/demo/app/jobs/v1_1_0/UserJob.java:24-41 | for one page: primary key valid, stored e-mails in place, each stored user revised by the last page row with its e-mail, one new row per unmatched row |
| UserJobV1_1_0.Size | src/main/java/com/example/demo/app/jobs/v1_1_0/UserJob.java:43-50 | getSize is the number of legacy user rows |
| UserJobV1_1_0.Rollback | src/main/java/com/example/demo/app/jobs/v1_1_0/UserJob.java:52-58 | rows tagged v end without phone number and tagged "1.0.0" whatever v is; all other rows are unchanged; with v other than "1.0.0" no row is tagged v afterwards; the primary key stays valid |
| UserJobV1_1_0.RetagFirstKeepsPhones | src/main/java/com/example/demo/app/jobs/v1_1_0/UserJob.java:56-57 | the two statements in the other order would leave the phone numbers of the rows tagged v in place |
| UserJobV1_1_0.RollbackUndoesMigrate | src/main/java/com/example/demo/app/jobs/v1_1_0/UserJob.java:35-57 | over users all at "1.0.0" without phone number, a page and its rollback give back every stored user exactly, followed by the new rows emptied to their id and the tag "1.0.0" |
| UserJobV1_1_0.RevisedByIdempotent | src/main/java/com/example/demo/app/jobs/v1_1_0/UserJob.java:36-37 | revising a user a second time by the same rows changes nothing |
| UserJobV1_1_0.RerunPage | src/main/java/com/example/demo/app/jobs/v1_1_0/UserJob.java:35-39 | a second run of a page leaves every row the first run produced as it is, and appends as many new rows again as the first run did, at least one when some e-mail was absent |
| UserJobV1_1_0.NoShellsWhenAllStored | src/main/java/com/example/demo/app/jobs/v1_1_0/UserJob.java:35 | when every e-mail of the rows is stored, the loop appends nothing |
| UserJobV1_1_0.ExtendsKeepsTags | src/main/java/com/example/demo/app/jobs/v1_1_0/UserJob.java:37 | a run tags only with its own version: rows tagged with an earlier tag w or with v stay tagged w or v |
| UserJobV1_1_0.MigratePages | src/main/java/com/example/demo/app/jobs/v1_1_0/UserJob.java:24-41 | pages 0 .. count - 1 keep the primary key and the e-mail uniqueness; each stored user is revised by the last row of those pages with its e-mail, and one row is appended per row whose e-mail matched no stored user; with as many pages as getSize calls for, this holds over the whole legacy table |
| UserJobV1_1_0.MigratedAsAppend | src/main/java/com/example/demo/app/jobs/v1_1_0/UserJob.java:31-40 | the loop over one row sequence and then over a second, on the table the first left, has the outcome of the loop over both sequences joined |
| UserJobV1_1_0.RollbackUndoesRun | src/main/java/com/example/demo/app/jobs/v1_1_0/UserJob.java:31-57 | over users all at "1.0.0" without phone number that already hold every e-mail of the rows, the loop's outcome rolled back is exactly the starting table |
| CourseJobV2_0_0.MigrateRow | src/main/java/com/example/demo/app/jobs/v2_0_0/CourseJob.java:34-38 | the course with the row's name gets location column 5 and the version, and nothing else changes; with no such course, one row is appended holding only that location, the version and a fresh id |
| CourseJobV2_0_0.MigrateRows | src/main/java/com/example/demo/app/jobs/v2_0_0/CourseJob.java:31-39 | the loop keeps the primary key, leaves every stored name in place and adds only rows without name tagged with the version |
| CourseJobV2_0_0.MigrateRowsOutcome | src/main/java/com/example/demo/app/jobs/v2_0_0/CourseJob.java:31-39 | after the loop every stored course is revised by the last page row with its name or left alone, and one row is appended per row whose name matched no course |
| CourseJobV2_0_0.ShellsShape | src/main/java/com/example/demo/app/jobs/v2_0_0/CourseJob.java:34-36 | every appended course has an id, the version and a location, and no name, date or time |
| CourseJobV2_0_0.Migrate | src/main/java/com/example/demo/app/jobs/v2_0_0/CourseJob.java:24-40 | for one page: primary key valid, stored names in place, courses revised by the last row with their name, one new row per unmatched row |
| CourseJobV2_0_0.Size | src/main/java/com/example/demo/app/jobs/v2_0_0/CourseJob.java:42-49 | getSize is the number of legacy course rows |
| CourseJobV2_0_0.Rollback | src/main/java/com/example/demo/app/jobs/v2_0_0/CourseJob.java:51-58 | courses tagged v end without location and tagged "1.0.0"; other rows unchanged; with v other than "1.0.0" none is tagged v afterwards; the primary key stays valid |
| CourseJobV2_0_0.RetagFirstKeepsLocations | src/main/java/com/example/demo/app/jobs/v2_0_0/CourseJob.java:55-56 | retagging before nulling would leave the locations in place |
| CourseJobV2_0_0.RollbackUndoesMigrate | src/main/java/com/example/demo/app/jobs/v2_0_0/CourseJob.java:34-56 | over courses at "1.0.0" without location, a page and its rollback restore every stored course exactly, followed by the new rows emptied to id and "1.0.0" |
| CourseJobV2_0_0.RevisedByIdempotent | src/main/java/com/example/demo/app/jobs/v2_0_0/CourseJob.java:35-36 | revising a course a second time by the same rows changes nothing |
| CourseJobV2_0_0.RerunPage | src/main/java/com/example/demo/app/jobs/v2_0_0/CourseJob.java:34-38 | a second run keeps every row of the first run as it is and appends as many new rows again as the first run did, one per page row whose name matched no stored course, so at least one when some name was absent |
| CourseJobV2_0_0.NoShellsWhenAllStored | src/main/java/com/example/demo/app/jobs/v2_0_0/CourseJob.java:34 | when every name of the rows is stored, nothing is appended |
| CourseJobV2_0_0.ExtendsKeepsTags | src/main/java/com/example/demo/app/jobs/v2_0_0/CourseJob.java:36 | rows tagged w or v stay tagged w or v |
| CourseJobV2_0_0.MigratePages | src/main/java/com/example/demo/app/jobs/v2_0_0/CourseJob.java:24-40 | pages 0 .. count - 1 keep the primary key and name uniqueness; each stored course is revised by the last row of those pages with its name, and one row is appended per page row whose name matched no stored course; with as many pages as getSize calls for, this holds over the whole legacy table |
| CourseJobV2_0_0.MigratedAsAppend | src/main/java/com/example/demo/app/jobs/v2_0_0/CourseJob.java:31-39 | two loops in a row, the second on the table the first left, have the outcome of one loop over both row sequences |
| CourseJobV2_0_0.RollbackUndoesRun | src/main/java/com/example/demo/app/jobs/v2_0_0/CourseJob.java:31-56 | over courses at "1.0.0" without location that already hold every name of the rows, the loop's outcome rolled back is exactly the starting table |
| UserMigration.CopiedReady | src/main/java/com/example/demo/app/jobs/v1_0_0/UserJob.java:35-43 | with distinct legacy e-mails, version 1.0.0's copy holds each e-mail exactly once, all at "1.0.0" without phone number |
| UserMigration.CopyAll | src/main/java/com/example/demo/app/jobs/v1_0_0/UserJob.java:24-54 | every page of version 1.0.0 into an empty table yields one user per legacy row with consecutive ids |
| UserMigration.RollbackCopied | src/main/java/com/example/demo/app/jobs/v1_0_0/UserJob.java:56-61 | rolling "1.0.0" back deletes the whole copy |
| UserMigration.RevisedCopy | src/main/java/com/example/demo/app/jobs/v1_1_0/UserJob.java:31-40 | with distinct legacy e-mails, version 1.1.0 over the 1.0.0 copy gives each copied user the phone number of its own legacy row and the tag "1.1.0", and appends nothing |
| UserMigration.RollbackRevisedCopy | src/main/java/com/example/demo/app/jobs/v1_1_0/UserJob.java:52-58 | rolling 1.1.0 back after it ran over the 1.0.0 copy gives back that copy exactly |
| UserMigration.MigrateAndRollBack | src/main/java/com/example/demo/app/jobs/v1_1_0/UserJob.java:52-58 | all pages of 1.0.0 into an empty table, all pages of 1.1.0, rollback of 1.1.0, rollback of 1.0.0: 1.1.0 adds each legacy phone number to its user, its rollback restores the 1.0.0 copy exactly, and the last rollback leaves the table empty |

## Left out

- Whatever calls the jobs. Each job carries an `@Executable` annotation, imported from a package
  that is not in the repository; the code that reads the annotation and calls `migrate`,
  `getSize` and `rollback` is not part of this model. The declared version and order of each
  job are kept as constants.
- SQL text, `EntityManager` native queries, logging and `@Transactional` commit and abort
  behaviour. Each statement is modelled by its effect on the table. A failure half-way through a
  page, and what a transaction then undoes, is not modelled.
- The Spring configuration classes (data sources, entity managers, transaction managers). They
  are wiring only.
- The order of legacy rows. The queries have no `ORDER BY`; the model takes the legacy table as
  one fixed sequence, the same for every page read.
- Java `int` arithmetic: `page * size` is unbounded here, so an overflowing offset is not
  modelled. `getSize` returns an unbounded natural number, not a `Long`.
- Casts and index errors: every legacy row is required to have enough columns
  (`Pages.Wide`), so a `ClassCastException` or an out-of-range index is outside the model. A
  column value is a string; a NULL legacy value is not modelled.
- Spring Data's handling of a NULL finder argument (`IS NULL` lookups): business keys are
  strings.
- `save` of an entity whose id is not in the table (JPA would insert or fail). No job does this.
  `Store.Save` requires the id to be absent or stored.
- Dates and times are kept as opaque values. No job writes them.
- More than one row with the same business key: `findByEmail` / `findByName` then fail in Spring
  Data. Here the revisers require key uniqueness (`KeysUnique`), as the finders do.
- UserJobV1_1_0.RollbackUndoesRun: the round trip through rollback is stated only for tables
  that already store every e-mail of the rows. With absent e-mails the new rows remain after
  rollback, as `UserJobV1_1_0.RollbackUndoesMigrate` states for one page.
- CourseJobV2_0_0.RollbackUndoesRun: likewise, the round trip is stated only when every course
  name of the rows is already stored.
- Negative page numbers and sizes: Java's `int page, size` may be negative, and MySQL then
  rejects the `LIMIT` / `OFFSET` clause with an SQL error. The model assumes non-negative page
  and size and takes both as natural numbers.
- UserMigration.MigrateAndRollBack: requires distinct legacy e-mails. With duplicates, the
  copy would hold an e-mail twice and `findByEmail` would fail.
