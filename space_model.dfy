/** The space record (models/space.go): its closed status enumeration and
    the rename a soft delete applies so that the unique name and key become
    free again. */
module SpaceModel {
  import opened Common
  import opened Text

  /** The recognised space statuses. */
  datatype SpaceStatus = Offline | Online {
    /** The string stored for the status. */
    function Name(): string {
      match this
      case Offline => "offline"
      case Online => "online"
    }
  }

  /** `SpaceStatus.IsValid`: nil (`None`) for a recognised status and
      `ErrSpaceStatusIsInvalid` for every other string. */
  function CheckSpaceStatus(status: string): (err: Option<Error>)
    ensures err.None? <==> exists st: SpaceStatus :: st.Name() == status
    ensures err.Some? ==> err.value == SpaceStatusInvalid
  {
    if status == "offline" then assert Offline.Name() == status; None
    else if status == "online" then assert Online.Name() == status; None
    else
      assert forall st: SpaceStatus :: st.Name() in {"offline", "online"};
      Some(SpaceStatusInvalid)
  }

  /** Exactly the two strings "offline" and "online" pass; the empty string
      does not. */
  lemma SpaceStatusValues(status: string)
    ensures CheckSpaceStatus(status).None? <==> status == "offline" || status == "online"
    ensures CheckSpaceStatus("") == Some(SpaceStatusInvalid)
  {
  }

  /** A row of the `spaces` table. `multilingual` is a field the service
      patches; `homepageId` is 0 until the homepage exists. */
  datatype Space = Space(
    id: int,
    name: string,
    key: string,
    lang: string,
    fallbackLang: string,
    homepageId: int,
    description: string,
    avatar: string,
    status: string,
    creatorId: int,
    multilingual: bool)

  /** The text appended to a deleted space's name and key: " [deleted-<now>]"
      with `now` in Unix seconds printed in decimal. */
  function DeletedSuffix(now: int): (suffix: string)
    ensures |suffix| >= 12 && suffix[..10] == " [deleted-" && suffix[|suffix| - 1] == ']'
    ensures suffix[10..|suffix| - 1] == DecimalString(now)
  {
    " [deleted-" + DecimalString(now) + "]"
  }

  /** `Space.BeforeDelete`: the row after the rename update. */
  function BeforeDelete(space: Space, now: int): (r: Space)
    ensures HasPrefix(r.name, space.name) && HasPrefix(r.key, space.key)
    ensures r.name[|space.name|..] == r.key[|space.key|..] == DeletedSuffix(now)
    ensures r.(name := space.name, key := space.key) == space
  {
    space.(name := space.name + DeletedSuffix(now), key := space.key + DeletedSuffix(now))
  }

  /** After the rename neither the name nor the key is the one the live
      space held, and two deletions at different seconds give different
      names. */
  lemma {:induction false} BeforeDeleteFreesName(space: Space, now: int, later: int)
    ensures BeforeDelete(space, now).name != space.name
    ensures BeforeDelete(space, now).key != space.key
    ensures now != later ==> BeforeDelete(space, now).name != BeforeDelete(space, later).name
  {
    var a := BeforeDelete(space, now).name;
    var b := BeforeDelete(space, later).name;
    if now != later && a == b {
      assert DeletedSuffix(now) == a[|space.name|..] == b[|space.name|..] == DeletedSuffix(later);
      assert DecimalString(now) == DeletedSuffix(now)[10..|DeletedSuffix(now)| - 1];
      DecimalInjective(now, later);
    }
  }

  /** Different integers print differently. */
  lemma DecimalInjective(a: int, b: int)
    requires DecimalString(a) == DecimalString(b)
    ensures a == b
  {
  }
}
