/** The result codes the registration engine returns, one per constant it uses from the
    protocol's `Consts` class. That class is not part of this model, so the codes are kept
    abstract: only their distinctness matters. */
module Codes {
  datatype Code =
    | IsRegistered
    | NotRegistered
    | RegisteredStudentSuccessfully
    | RegisteredAdministratorSuccessfully
    | IsLoggedIn
    | NotLoggedIn
    | WrongPassword
    | LoggedOutSuccessfully
    | HaveKdams
    | DontHaveKdams
    | NoSuchCourse
    | CourseIsFull
    | RegisteredCourseSuccessfully
    | IsRegisteredToCourse
    | NotRegisteredToCourse
    | UnregisteredFromCourseSuccessfully

  /** Opcode of the student-stat request message. */
  const StudentStatOpcode: int := 8

  /** Opcode of the error reply, which carries the opcode of the request it answers. */
  const ErrorOpcode: int := 13
}
