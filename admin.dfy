/** The admin gate in front of every write route. */
module AdminGate {
  import opened Common

  datatype User = User(id: nat, role: string)

  /** What the gate does with a request: refuse it with a status, or pass it on and
      answer with what the next handler answered. */
  datatype Gate<R> = Denied(status: int) | Passed(response: R)

  /** `handle`: 401 without an authenticated user, 403 for any role other than
      exactly "admin", otherwise the next handler's response unchanged. */
  function Handle<R>(user: Option<User>, next: R): (g: Gate<R>)
    ensures g == Denied(401) <==> user.None?
    ensures g == Denied(403) <==> user.Some? && user.value.role != "admin"
    ensures g.Passed? <==> user.Some? && user.value.role == "admin"
    ensures g.Passed? ==> g.response == next
  {
    if user.None? then Denied(401)
    else if user.value.role != "admin" then Denied(403)
    else Passed(next)
  }
}
