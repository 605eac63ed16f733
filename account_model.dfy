/** The account record (models/account.go): its closed status enumeration,
    the avatar the load hook derives from the e-mail address, and the login
    rename a soft delete applies. The MD5 digest behind the avatar is a
    parameter; the deletion time is given already split into its calendar
    fields. */
module AccountModel {
  import opened Text

  /** The recognised account statuses. */
  datatype UserStatus = Pending | Activated | Disabled {
    /** The string stored for the status. */
    function Name(): string {
      match this
      case Pending => "pending"
      case Activated => "activated"
      case Disabled => "disabled"
    }
  }

  /** `UserStatus.IsValid`: true exactly for the name of a recognised status. */
  function IsValidStatus(status: string): (ok: bool)
    ensures ok <==> exists st: UserStatus :: st.Name() == status
  {
    if status == "pending" then assert Pending.Name() == status; true
    else if status == "activated" then assert Activated.Name() == status; true
    else if status == "disabled" then assert Disabled.Name() == status; true
    else
      assert forall st: UserStatus :: st.Name() in {"pending", "activated", "disabled"};
      false
  }

  /** Exactly the three strings "pending", "activated" and "disabled" are
      valid; the empty string is not. */
  lemma UserStatusValues(status: string)
    ensures IsValidStatus(status) <==> status == "pending" || status == "activated" || status == "disabled"
    ensures !IsValidStatus("")
  {
  }

  /** A row of the `accounts` table. `avatar` is not a column: it is empty
      in the table and filled in by `AfterFind` on every load. */
  datatype Account = Account(
    id: int,
    login: string,
    email: string,
    name: string,
    bio: string,
    location: string,
    status: string,
    avatar: string)

  /** The address every avatar starts with. */
  const GravatarPrefix: string := "https://www.gravatar.com/avatar/"

  /** `Account.AfterFind`: with a non-empty e-mail address the avatar becomes
      the Gravatar address for the hex MD5 digest of the address (`digest`);
      otherwise the account is left as loaded. Nothing but the avatar
      changes. */
  function AfterFind(a: Account, digest: string -> string): (r: Account)
    ensures a.email == "" ==> r == a
    ensures a.email != "" ==> HasPrefix(r.avatar, GravatarPrefix) && r.avatar[|GravatarPrefix|..] == digest(a.email)
    ensures r.(avatar := a.avatar) == a
  {
    if |a.email| > 0 then a.(avatar := GravatarPrefix + digest(a.email)) else a
  }

  /** Loading twice gives what loading once gives, and the avatar depends on
      the e-mail address alone. */
  lemma AfterFindStable(a: Account, b: Account, digest: string -> string)
    ensures AfterFind(AfterFind(a, digest), digest) == AfterFind(a, digest)
    ensures a.email == b.email != "" ==> AfterFind(a, digest).avatar == AfterFind(b, digest).avatar
  {
  }

  /** A wall-clock time split into the fields Go's layout
      "2006-01-02 15:04:05" prints. */
  datatype DateTime = DateTime(year: nat, month: nat, day: nat, hour: nat, minute: nat, second: nat)

  /** The time lies in the calendar range the layout prints at fixed width. */
  predicate InRange(t: DateTime) {
    t.year <= 9999 && 1 <= t.month <= 12 && 1 <= t.day <= 31
    && t.hour < 24 && t.minute < 60 && t.second < 60
  }

  /** `t.Format("2006-01-02 15:04:05")`: the date, a space, and the time
      of day. */
  function Format(t: DateTime): (s: string)
    ensures InRange(t) ==> |s| == 19
  {
    DatePart(t) + " " + ClockPart(t)
  }

  /** The date: a four-digit year and two-digit month and day, zero-padded
      and separated by '-'. */
  function DatePart(t: DateTime): (s: string)
    ensures InRange(t) ==> |s| == 10
  {
    NatStringLength(t.year);
    NatStringLength(t.month);
    NatStringLength(t.day);
    Pad(t.year, 4) + "-" + Pad(t.month, 2) + "-" + Pad(t.day, 2)
  }

  /** The time of day: two-digit hour, minute and second, zero-padded and
      separated by ':'. */
  function ClockPart(t: DateTime): (s: string)
    ensures InRange(t) ==> |s| == 8
  {
    NatStringLength(t.hour);
    NatStringLength(t.minute);
    NatStringLength(t.second);
    Pad(t.hour, 2) + ":" + Pad(t.minute, 2) + ":" + Pad(t.second, 2)
  }

  /** Two times in range print differently unless they are equal. */
  lemma FormatInjective(a: DateTime, b: DateTime)
    requires InRange(a) && InRange(b) && Format(a) == Format(b)
    ensures a == b
  {
    ConcatCancel(DatePart(a) + " ", ClockPart(a), DatePart(b) + " ", ClockPart(b));
    ConcatCancel(DatePart(a), " ", DatePart(b), " ");
    DateInjective(a, b);
    ClockInjective(a, b);
  }

  /** Two dates in range print differently unless they are equal. */
  lemma DateInjective(a: DateTime, b: DateTime)
    requires InRange(a) && InRange(b) && DatePart(a) == DatePart(b)
    ensures a.year == b.year && a.month == b.month && a.day == b.day
  {
    NatStringLength(a.month); NatStringLength(b.month);
    NatStringLength(a.day); NatStringLength(b.day);
    FieldsCancel(Pad(a.year, 4), Pad(a.month, 2), Pad(a.day, 2), Pad(b.year, 4), Pad(b.month, 2), Pad(b.day, 2), "-");
    PadInjective(a.year, b.year, 4);
    PadInjective(a.month, b.month, 2);
    PadInjective(a.day, b.day, 2);
  }

  /** Two times of day in range print differently unless they are equal. */
  lemma ClockInjective(a: DateTime, b: DateTime)
    requires InRange(a) && InRange(b) && ClockPart(a) == ClockPart(b)
    ensures a.hour == b.hour && a.minute == b.minute && a.second == b.second
  {
    NatStringLength(a.minute); NatStringLength(b.minute);
    NatStringLength(a.second); NatStringLength(b.second);
    FieldsCancel(Pad(a.hour, 2), Pad(a.minute, 2), Pad(a.second, 2), Pad(b.hour, 2), Pad(b.minute, 2), Pad(b.second, 2), ":");
    PadInjective(a.hour, b.hour, 2);
    PadInjective(a.minute, b.minute, 2);
    PadInjective(a.second, b.second, 2);
  }

  /** Three fields joined by the same separator, whose last two have the
      same lengths on both sides, are equal field by field. */
  lemma FieldsCancel(x1: string, x2: string, x3: string, y1: string, y2: string, y3: string, sep: string)
    requires x1 + sep + x2 + sep + x3 == y1 + sep + y2 + sep + y3
    requires |x2| == |y2| && |x3| == |y3|
    ensures x1 == y1 && x2 == y2 && x3 == y3
  {
    ConcatCancel(x1 + sep + x2 + sep, x3, y1 + sep + y2 + sep, y3);
    ConcatCancel(x1 + sep + x2, sep, y1 + sep + y2, sep);
    ConcatCancel(x1 + sep, x2, y1 + sep, y2);
    ConcatCancel(x1, sep, y1, sep);
  }

  /** Equal concatenations whose right parts have the same length have equal
      parts. */
  lemma ConcatCancel(a: string, b: string, c: string, d: string)
    requires a + b == c + d && |b| == |d|
    ensures a == c && b == d
  {
    assert a == (a + b)[..|a|];
    assert c == (c + d)[..|c|];
    assert b == (a + b)[|a|..];
    assert d == (c + d)[|c|..];
  }

  /** Paddings of the same width that are equal pad equal numbers. */
  lemma PadInjective(m: nat, n: nat, width: nat)
    requires Pad(m, width) == Pad(n, width)
    ensures m == n
  {
  }

  /** The text appended to a deleted account's login: " [deleted-<time>]"
      with the time formatted as above. */
  function DeletedSuffix(now: DateTime): (suffix: string)
    ensures |suffix| >= 11 && suffix[..10] == " [deleted-" && suffix[|suffix| - 1] == ']'
    ensures suffix[10..|suffix| - 1] == Format(now)
  {
    " [deleted-" + Format(now) + "]"
  }

  /** `Account.BeforeDelete`: the row after the rename update, which
      appends the deletion suffix to the login. No other column changes. */
  function BeforeDelete(a: Account, now: DateTime): (r: Account)
    ensures HasPrefix(r.login, a.login)
    ensures r.login[|a.login|..] == DeletedSuffix(now)
    ensures r.(login := a.login) == a
  {
    a.(login := a.login + DeletedSuffix(now))
  }

  /** After the rename the login is not the live one, and deletions at two
      different times in range give different logins. */
  lemma {:induction false} BeforeDeleteFreesLogin(a: Account, now: DateTime, later: DateTime)
    ensures BeforeDelete(a, now).login != a.login
    ensures InRange(now) && InRange(later) && now != later ==>
              BeforeDelete(a, now).login != BeforeDelete(a, later).login
  {
    var x := BeforeDelete(a, now).login;
    var y := BeforeDelete(a, later).login;
    if InRange(now) && InRange(later) && now != later && x == y {
      assert DeletedSuffix(now) == x[|a.login|..] == y[|a.login|..] == DeletedSuffix(later);
      FormatInjective(now, later);
    }
  }
}
