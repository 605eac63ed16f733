/** The account service's parameter checks (accounts/params/account.go):
    the presence rule of `DescribeAccount` and the `validate` tags of
    `CreateAccount`. The e-mail syntax check of the validator library is a
    parameter. */
module AccountParams {
  import opened Common

  /** `params.DescribeAccount`: an account picked by id, login or e-mail;
      every selector that is set must match. */
  datatype DescribeAccountParams = DescribeAccountParams(id: int, login: string, email: string)

  /** `DescribeAccount.IsValid`: `ErrDescribeAccountParamsInvalid` exactly
      when no selector is set, nil otherwise. */
  function CheckDescribeAccount(p: DescribeAccountParams): (err: Option<Error>)
    ensures err.Some? <==> p.id == 0 && p.login == "" && p.email == ""
    ensures err.Some? ==> err.value == DescribeAccountParamsInvalid
  {
    if p.id == 0 && |p.login| == 0 && |p.email| == 0 then Some(DescribeAccountParamsInvalid) else None
  }

  /** Any one selector on its own is enough, a negative id included. */
  lemma OneSelectorSuffices(id: int, login: string, email: string)
    ensures id != 0 ==> CheckDescribeAccount(DescribeAccountParams(id, "", "")).None?
    ensures login != "" ==> CheckDescribeAccount(DescribeAccountParams(0, login, "")).None?
    ensures email != "" ==> CheckDescribeAccount(DescribeAccountParams(0, "", email)).None?
  {
  }

  /** `params.CreateAccount`. `status` has no tag and is not copied into the
      new account. */
  datatype CreateAccountParams = CreateAccountParams(
    login: string,
    email: string,
    password: string,
    name: string,
    bio: string,
    location: string,
    status: string)

  /** The tags `required` on the login, `required,email` on the e-mail
      address and `required,min=8,max=56` on the password, counted in code
      points. `isEmail` is the validator's address syntax check. */
  predicate CreateAccountValid(p: CreateAccountParams, isEmail: string -> bool) {
    p.login != "" && p.email != "" && isEmail(p.email) && p.password != ""
    && 8 <= |p.password| <= 56
  }

  /** Which inputs the tags reject: the empty login, an empty or malformed
      address, and a password shorter than 8 or longer than 56 (the
      `required` tag on the password adds nothing to `min=8`); the other
      fields never matter. */
  lemma CreateAccountRules(p: CreateAccountParams, isEmail: string -> bool)
    ensures p.login == "" || p.email == "" || !isEmail(p.email) ==> !CreateAccountValid(p, isEmail)
    ensures |p.password| < 8 || |p.password| > 56 ==> !CreateAccountValid(p, isEmail)
    ensures p.login != "" && p.email != "" && isEmail(p.email) && 8 <= |p.password| <= 56 ==> CreateAccountValid(p, isEmail)
    ensures CreateAccountValid(p, isEmail) ==
              CreateAccountValid(p.(name := "", bio := "", location := "", status := ""), isEmail)
  {
  }
}
