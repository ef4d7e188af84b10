/** The sign-in / sign-up form (Login.jsx): the checks `handleSubmit` makes
    before it calls the auth store, and the mode switch. */
module Login {
  import opened Wrappers

  const AllFieldsMessage: string := "すべての項目を入力してください"
  const PasswordLengthMessage: string := "パスワードは6文字以上で入力してください"
  const LoginFieldsMessage: string := "ユーザー名とパスワードを入力してください"

  /** Line 46: `password.length` counts UTF-16 code units, two for a code
      point above U+FFFF. */
  function Utf16Length(s: string): (n: nat)
    ensures |s| <= n <= 2 * |s|
    ensures (forall i :: 0 <= i < |s| ==> s[i] as int <= 0xFFFF) ==> n == |s|
  {
    if s == [] then 0 else (if s[0] as int > 0xFFFF then 2 else 1) + Utf16Length(s[1..])
  }

  /** What a submit comes to: an error message and no call, or the call to
      the auth store's `register` or `login` with the form's fields. */
  datatype Submission =
    | Rejected(message: string)
    | Register(username: string, email: string, password: string)
    | SignIn(username: string, password: string)

  /** Lines 39-62: in register mode every field must be filled, then the
      password must be at least 6 long; in login mode the name and password
      must be filled. */
  function Validate(isRegistering: bool, username: string, email: string, password: string): (r: Submission)
    ensures r.Register? <==> isRegistering && username != "" && email != "" && password != "" && Utf16Length(password) >= 6
    ensures r.SignIn? <==> !isRegistering && username != "" && password != ""
    ensures r.Register? ==> r == Register(username, email, password)
    ensures r.SignIn? ==> r == SignIn(username, password)
    ensures r.Rejected? ==> r.message == (if !isRegistering then LoginFieldsMessage
                                          else if username == "" || email == "" || password == "" then AllFieldsMessage
                                          else PasswordLengthMessage)
  {
    if isRegistering then
      if username == "" || email == "" || password == "" then Rejected(AllFieldsMessage)
      else if Utf16Length(password) < 6 then Rejected(PasswordLengthMessage)
      else Register(username, email, password)
    else
      if username == "" || password == "" then Rejected(LoginFieldsMessage)
      else SignIn(username, password)
  }

  /** The emptiness check comes first: a register attempt with a field
      missing reports the missing field even when the password is short too. */
  lemma MissingFieldFirst(username: string, email: string, password: string)
    requires username == "" || email == "" || password == ""
    ensures Validate(true, username, email, password) == Rejected(AllFieldsMessage)
  {
  }

  /** The form's state; `error` stands for the auth store's error, which
      the form clears and sets. */
  class LoginForm {
    var username: string
    var email: string
    var password: string
    var isRegistering: bool
    var error: Option<string>

    /** Lines 9-12: empty fields in login mode. */
    constructor (error: Option<string>)
      ensures username == "" && email == "" && password == "" && !isRegistering
      ensures this.error == error
    {
      username, email, password := "", "", "";
      isRegistering := false;
      this.error := error;
    }

    /** Lines 34-62: clear the error, then either set the validation message
        or hand back the call to make. */
    method HandleSubmit() returns (call: Submission)
      modifies this`error
      ensures call == Validate(isRegistering, username, email, password)
      ensures call.Rejected? ==> error == Some(call.message)
      ensures !call.Rejected? ==> error.None?
    {
      error := None;
      call := Validate(isRegistering, username, email, password);
      if call.Rejected? {
        error := Some(call.message);
      }
    }

    /** Lines 159-162: switch between login and register and clear the error. */
    method ToggleMode()
      modifies this`isRegistering, this`error
      ensures isRegistering == !old(isRegistering) && error.None?
    {
      isRegistering := !isRegistering;
      error := None;
    }
  }
}
