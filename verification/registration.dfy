/** Self-registration (`register_view`): only students can sign themselves
    up; the role of every account it creates is fixed to student. */
module Registration {
  import opened Wrappers
  import opened Models

  /** A posted registration form: the requested role, and whether the
      student form's field validation passed (that validation is library
      behaviour and enters as a given). */
  datatype RegistrationPost = RegistrationPost(role: string, formValid: bool)

  /** The ways a registration request ends without creating an account. */
  datatype RegisterError =
    | AlreadyLoggedIn              // redirected to the dashboard
    | FormShown                    // a GET: the form is rendered
    | AdminRegistrationRestricted  // role "admin" is refused
    | InvalidRole                  // any role other than "student" or "admin"
    | InvalidForm                  // the student form did not validate

  /** `register_view`: create a student account with primary key `newId`. */
  function Register(authenticated: bool, post: Option<RegistrationPost>, newId: nat): (r: Result<User, RegisterError>)
    ensures r.Ok? <==> !authenticated && post.Some? && post.value.role == "student" && post.value.formValid
    ensures r.Ok? ==> r.value == User(newId, Student)
    ensures !authenticated && post.Some? && post.value.role == "admin" ==> r == Err(AdminRegistrationRestricted)
    ensures !authenticated && post.Some? && post.value.role != "admin" && post.value.role != "student" ==>
      r == Err(InvalidRole)
  {
    if authenticated then Err(AlreadyLoggedIn)
    else if post.None? then Err(FormShown)
    else if post.value.role == "admin" then Err(AdminRegistrationRestricted)
    else if post.value.role != "student" then Err(InvalidRole)
    else if !post.value.formValid then Err(InvalidForm)
    else Ok(User(newId, Student))
  }
}
