/** Telling an outage from a wrong password: unavailable.go, and `fail` of ldapdir.go. */
module Unavailable {
  import opened Basics

  /** An error as the tree of what it wraps. */
  datatype Err =
    | WrongPassword
    | IsUnavailable
    | Transport                                 // the network failing: EOF, a closed or dead connection, a net.Error
    | Canceled                                  // context.Canceled
    | Deadline                                  // context.DeadlineExceeded
    | Other
    | LdapError(code: nat, cause: Option<Err>)  // a result code, the server's or the client library's own
    | Wrap(inner: Err)
    | Join(left: Err, right: Err)
    | Marked(err: Err)                          // unavailableError: wraps err and ErrUnavailable

  /** errors.Is, for the sentinels. */
  predicate Is(e: Err, target: Err) {
    match e
    case Wrap(inner) => Is(inner, target)
    case Join(l, r) => Is(l, target) || Is(r, target)
    case LdapError(_, cause) => cause.Some? && Is(cause.value, target)
    case Marked(err) => Is(err, target) || target == IsUnavailable
    case _ => e == target
  }

  /** errors.As for *ldap.Error: the code of the first one met. */
  function FirstCode(e: Err): Option<nat> {
    match e
    case Wrap(inner) => FirstCode(inner)
    case Join(l, r) => if FirstCode(l).Some? then FirstCode(l) else FirstCode(r)
    case LdapError(code, _) => Some(code)
    case Marked(err) => FirstCode(err)
    case _ => None
  }

  const INVALID_CREDENTIALS := 49

  /** timeLimitExceeded, busy, unavailable, other, serverDown, timeout, connectError, and a network error. */
  const UNAVAILABLE_CODES: set<nat> := {3, 51, 52, 80, 81, 85, 91, 200}

  predicate HasCode(e: Err, codes: set<nat>) {
    FirstCode(e).Some? && FirstCode(e).value in codes
  }

  predicate TransportFailure(e: Err) {
    Is(e, Transport) || Is(e, Deadline)
  }

  function AsUnavailable(e: Option<Err>): Option<Err> {
    if e.None? || Is(e.value, WrongPassword) || Is(e.value, IsUnavailable) then e
    else Some(Marked(e.value))
  }

  function Fail(e: Option<Err>): Option<Err> {
    if e.None? || HasCode(e.value, {INVALID_CREDENTIALS}) then e
    else if FirstCode(e.value).None? || HasCode(e.value, UNAVAILABLE_CODES) || TransportFailure(e.value) then
      AsUnavailable(e)
    else e
  }

  ghost predicate Says(e: Option<Err>, target: Err) {
    e.Some? && Is(e.value, target)
  }

  /** Marking adds the one meaning and takes none away; and marking twice is marking once. */
  lemma MarkingMeans(e: Err, target: Err)
    requires target in {WrongPassword, Transport, Canceled, Deadline, Other}
    ensures Says(AsUnavailable(Some(e)), target) <==> Is(e, target)
    ensures Says(AsUnavailable(Some(e)), IsUnavailable) <==> Is(e, IsUnavailable) || !Is(e, WrongPassword)
    ensures FirstCode(AsUnavailable(Some(e)).value) == FirstCode(e)
    ensures AsUnavailable(AsUnavailable(Some(e))) == AsUnavailable(Some(e))
  {}

  /** The two are exclusive exactly when they were before: an error that is both stays both. */
  lemma Exclusive(e: Err)
    ensures Says(AsUnavailable(Some(e)), WrongPassword) && Says(AsUnavailable(Some(e)), IsUnavailable) <==>
            Is(e, WrongPassword) && Is(e, IsUnavailable)
    ensures Says(Fail(Some(e)), WrongPassword) && Says(Fail(Some(e)), IsUnavailable) <==>
            Is(e, WrongPassword) && Is(e, IsUnavailable)
  {}

  /** An error that is both, and that marking therefore leaves both. */
  lemma NotAlwaysExclusive()
    ensures var e := Join(WrongPassword, IsUnavailable);
            AsUnavailable(Some(e)) == Some(e) && Is(e, WrongPassword) && Is(e, IsUnavailable)
  {}

  /** No answer from a server, or one that says it cannot serve, or a failure of the connection underneath; never
      code 49. */
  predicate IsOutage(e: Err) {
    && FirstCode(e) != Some(49)
    && (FirstCode(e).None? || FirstCode(e).value in {3, 51, 52, 80, 81, 85, 91, 200} ||
        Is(e, Transport) || Is(e, Deadline))
  }

  /** An answer from a server is an outage on just these codes, whatever it wraps: time limit, busy, unavailable,
      other, server down, timeout, connect error, and a network error. */
  lemma FailCodes(code: nat)
    ensures Says(Fail(Some(LdapError(code, None))), IsUnavailable) <==> code in {3, 51, 52, 80, 81, 85, 91, 200}
    ensures Says(Fail(Some(Wrap(LdapError(code, None)))), IsUnavailable) <==> code in {3, 51, 52, 80, 81, 85, 91, 200}
  {}

  /** Of any error, `fail` says it is an outage exactly when it was one or is no wrong password; it says nothing else
      that the error did not, keeps its code, and has nothing to add to its own result. */
  lemma FailMeans(e: Err)
    ensures Says(Fail(Some(e)), IsUnavailable) <==> Is(e, IsUnavailable) || (IsOutage(e) && !Is(e, WrongPassword))
    ensures forall target :: target in {WrongPassword, Transport, Canceled, Deadline, Other} ==>
              (Says(Fail(Some(e)), target) <==> Is(e, target))
    ensures FirstCode(Fail(Some(e)).value) == FirstCode(e)
    ensures Fail(Fail(Some(e))) == Fail(Some(e))
  {
    assert Is(e, Transport) <==> Says(Fail(Some(e)), Transport);
    assert Is(e, Deadline) <==> Says(Fail(Some(e)), Deadline);
  }
}
