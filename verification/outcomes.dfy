/** The error conditions the admin commands raise, and the result type that
    carries either a value or one of them. */
module Outcomes {
  import opened Resources

  datatype Option<T> = None | Some(value: T) {
    function GetOr(default: T): T {
      match this
      case Some(v) => v
      case None => default
    }
  }

  /** Every way an admin command can fail. */
  datatype Error =
    | NotAllowed                   // 403: the caller may not run the command
    | NotFound                     // 404: no admin with the given id or login name
    | LoginEmpty                   // 'stringisempty' / 'myloginname'
    | LoginExists                  // 'loginnameexists'
    | LoginIsSystemAccount         // 'loginnameissystemaccount'
    | LoginInvalid                 // 'loginnameiswrong'
    | NameEmpty                    // 'stringisempty' / 'myname'
    | EmailEmpty                   // 'stringisempty' / 'emailadd'
    | EmailInvalid                 // 'emailiswrong'
    | PasswordInvalid              // rejected by the password policy
    | QuotaExceeded(kinds: seq<Kind>)  // 406: limits set below what is already used
    | CannotDeleteSelf             // 'youcantdeleteyourself'

  datatype Result<T> = Ok(value: T) | Err(error: Error)

  /** One check of a validation chain: whether it fails and what it raises. */
  datatype Check = Check(fails: bool, error: Error)

  /** The error of the first failing check, if any check fails. */
  function FirstFailure(checks: seq<Check>): (r: Option<Error>)
    ensures r.None? <==> forall i :: 0 <= i < |checks| ==> !checks[i].fails
    ensures r.Some? ==> exists i :: 0 <= i < |checks| && checks[i].fails && checks[i].error == r.value
                                    && forall j :: 0 <= j < i ==> !checks[j].fails
  {
    if |checks| == 0 then None
    else if checks[0].fails then Some(checks[0].error)
    else
      var r := FirstFailure(checks[1..]);
      assert r.Some? ==> exists i :: 1 <= i < |checks| && checks[i].fails && checks[i].error == r.value
                                     && forall j :: 0 <= j < i ==> !checks[j].fails by {
        if r.Some? {
          var i :| 0 <= i < |checks[1..]| && checks[1..][i].fails && checks[1..][i].error == r.value
                   && forall j :: 0 <= j < i ==> !checks[1..][j].fails;
          assert checks[i + 1] == checks[1..][i];
          forall j | 0 <= j < i + 1
            ensures !checks[j].fails
          {
            if j > 0 {
              assert checks[j] == checks[1..][j - 1];
            }
          }
        }
      }
      assert r.None? ==> forall i :: 0 <= i < |checks| ==> !checks[i].fails by {
        if r.None? {
          forall i | 0 <= i < |checks|
            ensures !checks[i].fails
          {
            if i > 0 {
              assert checks[i] == checks[1..][i - 1];
            }
          }
        }
      }
      r
  }
}
