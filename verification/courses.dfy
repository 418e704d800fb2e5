/** The course record and the optional result used by the model's lookups. */
module Courses {

  datatype Option<T> = None | Some(value: T)

  /** A course: its number (the key), its name and its prerequisites in order. */
  datatype Course = Course(courseNumber: string, courseName: string, preReqs: seq<string>)

  /** The default-constructed course, with every field empty. */
  const EmptyCourse: Course := Course("", "", [])
}
