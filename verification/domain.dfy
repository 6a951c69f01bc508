/**
 * The entities of the target store. Only their columns matter here: the primary key
 * and the version tag live in Store.Record, the rest in the per-entity field records.
 */
module Domain {
  import opened Wrappers
  import Store

  /** java.time.LocalDate, kept opaque: no job writes one. */
  datatype Date = Date(epochDay: int)

  /** java.time.LocalTime, kept opaque: no job writes one. */
  datatype Time = Time(nanoOfDay: nat)

  /** Columns of `users` besides id and version. */
  datatype UserFields = UserFields(
    birthDate: Option<Date>,
    phoneNumber: Option<string>,
    firstName: Option<string>,
    lastName: Option<string>,
    city: Option<string>,
    job: Option<string>,
    email: Option<string>)

  /** Columns of `course` besides id and version. */
  datatype CourseFields = CourseFields(
    name: Option<string>,
    date: Option<Date>,
    time: Option<Time>,
    location: Option<string>)

  /** Columns of `contact` besides id and version. */
  datatype ContactFields = ContactFields(
    firstName: Option<string>,
    lastName: Option<string>,
    company: Option<string>)

  type Users = Store.Record<UserFields>
  type Course = Store.Record<CourseFields>
  type Contact = Store.Record<ContactFields>

  const NoUserFields := UserFields(None, None, None, None, None, None, None)
  const NoCourseFields := CourseFields(None, None, None, None)
  const NoContactFields := ContactFields(None, None, None)

  /** `new Users()`, which is also what a fresh `Users.builder()` holds */
  const NewUsers: Users := Store.Record(None, None, NoUserFields)
  /** `new Course()` and a fresh `Course.builder()` */
  const NewCourse: Course := Store.Record(None, None, NoCourseFields)
  /** a fresh `Contact.builder()` */
  const NewContact: Contact := Store.Record(None, None, NoContactFields)
}
