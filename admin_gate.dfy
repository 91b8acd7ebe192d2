/** The middleware that lets only administrators through to the admin routes. */
module AdminGate {
  import opened Wrappers
  import opened Records
  import opened Http

  /** The request goes on to the next handler, or is answered by the gate itself. */
  datatype GateOutcome = PassOn | Denied(response: Response, message: string)

  const AdminRequired: GateOutcome := Denied(Failure(403, "UNAUTHORIZED"), "Admin access required.")

  /** `User::isAdmin`. */
  predicate IsAdmin(u: User)
  {
    u.role == Admin
  }

  /** `handle`: `user` is the authenticated user of the request, if any. */
  function Handle(user: Option<User>): (r: GateOutcome)
    ensures r.PassOn? <==> user.Some? && IsAdmin(user.value)
    ensures !r.PassOn? ==> r == AdminRequired
  {
    if user.None? || !IsAdmin(user.value) then AdminRequired else PassOn
  }

  /** Guests and students are both refused with the same answer. */
  lemma GuestsAndStudentsRefused(u: User)
    requires u.role == Student
    ensures Handle(None) == Handle(Some(u)) == AdminRequired
  {
  }
}
