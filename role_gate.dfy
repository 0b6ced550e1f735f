/**
 The sign-in step shared by the front-end and the back-office: the user that the
 credential check put on the request is issued a token only when its role is the
 one the endpoint serves. Token signing is a parameter, applied to the public record.
 */
module RoleGate {
  import opened Common
  import opened Entities

  /** What `cause` carries when the gate refuses. */
  datatype SignInError = SignInError(message: string, accountErrMsg: string, passwordErrMsg: string)

  const NoSuchUser := SignInError("no such user(角色錯誤)", "帳號不存在！", "")

  /** The response `data`: the token and the user record without its password. */
  datatype Session = Session(token: string, user: PublicUser)

  function SignInAs(role: string, u: User, sign: PublicUser -> string): (r: Result<Session, SignInError>)
    ensures r.Ok? <==> u.role == role
    ensures r.Ok? ==> r.value.user == WithoutPassword(u) && r.value.token == sign(WithoutPassword(u))
    ensures r.Err? ==> r.error == NoSuchUser
  {
    if u.role != role then Err(NoSuchUser)
    else
      var userData := WithoutPassword(u);
      Ok(Session(sign(userData), userData))
  }

  /** Neither the token nor the returned record depends on the stored password. */
  lemma SignInIgnoresPassword(role: string, u: User, p: string, sign: PublicUser -> string)
    ensures SignInAs(role, u, sign) == SignInAs(role, u.(password := p), sign)
  {
  }
}
