/** The closed enumeration of setting keys (`SettingName`, a string-backed
    PHP enum) and its static `group()` mapping onto the two setting groups. */
module SettingNames {
  import opened Wrappers

  /** The two groups a setting can belong to; each is edited on its own page. */
  datatype SettingGroup = HomePage | General

  datatype SettingName =
    | Status | CompanyName | CompanyAddress | Description
    | InstagramLink | FacebookLink | TiktokLink
    | Email | PhoneNumber
    | Logo | Favicon

  /** The enum's backing string, which is also the `name` column of a row. */
  function Key(n: SettingName): string {
    match n
    case Status => "status"
    case CompanyName => "company_name"
    case CompanyAddress => "company_address"
    case Description => "description"
    case InstagramLink => "instagram_link"
    case FacebookLink => "facebook_link"
    case TiktokLink => "tiktok_link"
    case Email => "email"
    case PhoneNumber => "phone_number"
    case Logo => "logo"
    case Favicon => "favicon"
  }

  /** The cases in declaration order, as PHP's `cases()` lists them. */
  const AllNames: seq<SettingName> :=
    [Status, CompanyName, CompanyAddress, Description,
     InstagramLink, FacebookLink, TiktokLink,
     Email, PhoneNumber,
     Logo, Favicon]

  /** The enum's `tryFrom`: the case whose backing string is `s`, if any. */
  function FromKey(s: string): (r: Option<SettingName>)
    ensures r.Some? ==> Key(r.value) == s
    ensures r.None? ==> forall n: SettingName :: Key(n) != s
  {
    match s
    case "status" => Some(Status)
    case "company_name" => Some(CompanyName)
    case "company_address" => Some(CompanyAddress)
    case "description" => Some(Description)
    case "instagram_link" => Some(InstagramLink)
    case "facebook_link" => Some(FacebookLink)
    case "tiktok_link" => Some(TiktokLink)
    case "email" => Some(Email)
    case "phone_number" => Some(PhoneNumber)
    case "logo" => Some(Logo)
    case "favicon" => Some(Favicon)
    case _ => None
  }

  /** The static `group()` mapping. */
  function Group(n: SettingName): SettingGroup {
    match n
    case Status | CompanyName | CompanyAddress | Description
      | InstagramLink | FacebookLink | TiktokLink
      | Email | PhoneNumber => HomePage
    case Logo | Favicon => General
  }

  /** The `group` column literal each settings page writes and filters by. */
  function GroupLiteral(g: SettingGroup): string {
    match g
    case HomePage => "home_page"
    case General => "general"
  }

  /** The names a group owns, in declaration order: the enum declares the
      nine home-page cases first and the two general ones last.
      `NamesInIsPreimage` shows this is exactly the preimage of `Group`. */
  function NamesIn(g: SettingGroup): seq<SettingName> {
    if g == HomePage then AllNames[..9] else AllNames[9..]
  }

  /** `AllNames` lists every case exactly once. */
  lemma AllNamesComplete()
    ensures forall n: SettingName :: n in AllNames
    ensures |AllNames| == 11
    ensures forall i, j :: 0 <= i < j < |AllNames| ==> AllNames[i] != AllNames[j]
  {
    forall n: SettingName
      ensures n in AllNames
    {
      match n
      case Status => assert AllNames[0] == n;
      case CompanyName => assert AllNames[1] == n;
      case CompanyAddress => assert AllNames[2] == n;
      case Description => assert AllNames[3] == n;
      case InstagramLink => assert AllNames[4] == n;
      case FacebookLink => assert AllNames[5] == n;
      case TiktokLink => assert AllNames[6] == n;
      case Email => assert AllNames[7] == n;
      case PhoneNumber => assert AllNames[8] == n;
      case Logo => assert AllNames[9] == n;
      case Favicon => assert AllNames[10] == n;
    }
  }

  /** Distinct cases have distinct backing strings, so a name survives the
      trip to the `name` column and back. */
  lemma KeyRoundTrip(n: SettingName)
    ensures FromKey(Key(n)) == Some(n)
  {
  }

  lemma KeyInjective(a: SettingName, b: SettingName)
    ensures Key(a) == Key(b) ==> a == b
  {
    KeyRoundTrip(a);
    KeyRoundTrip(b);
  }

  /** The nine cases STATUS through PHONE_NUMBER, and only they, are in the
      home-page group. */
  lemma HomePageNames()
    ensures NamesIn(HomePage) ==
      [Status, CompanyName, CompanyAddress, Description,
       InstagramLink, FacebookLink, TiktokLink, Email, PhoneNumber]
    ensures |NamesIn(HomePage)| == 9
  {
  }

  /** LOGO and FAVICON, and only they, are in the general group. */
  lemma GeneralNames()
    ensures NamesIn(General) == [Logo, Favicon]
    ensures |NamesIn(General)| == 2
  {
  }

  /** `NamesIn(g)` is exactly the preimage of `g` under `group()`: every
      name is listed under its own group and under no other. */
  lemma NamesInIsPreimage(n: SettingName, g: SettingGroup)
    ensures n in NamesIn(g) <==> Group(n) == g
  {
    var home := NamesIn(HomePage);
    var general := NamesIn(General);
    assert forall j :: 0 <= j < |home| ==> Group(home[j]) == HomePage;
    assert forall j :: 0 <= j < |general| ==> Group(general[j]) == General;
    match n
    case Status => assert home[0] == n;
    case CompanyName => assert home[1] == n;
    case CompanyAddress => assert home[2] == n;
    case Description => assert home[3] == n;
    case InstagramLink => assert home[4] == n;
    case FacebookLink => assert home[5] == n;
    case TiktokLink => assert home[6] == n;
    case Email => assert home[7] == n;
    case PhoneNumber => assert home[8] == n;
    case Logo => assert general[0] == n;
    case Favicon => assert general[1] == n;
  }
}
