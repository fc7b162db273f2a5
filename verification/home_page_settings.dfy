/** The home-page settings page: `loadSettings`, the validation rules of its
    form, `save`, and the "View site" header action's visibility.

    The authenticated user's id is a parameter (`uid`); the page URL built by
    `route(...)` is not part of the stored settings and is left out. */
module HomePageSettings {
  import opened Wrappers
  import opened Json
  import opened SettingNames
  import opened FieldRules
  import GroupAgreement
  import Store = SettingsStore

  /** The page's public properties that hold settings. */
  datatype HomePageForm = HomePageForm(
    status: Value,
    companyName: Value,
    companyAddress: Value,
    description: Value,
    instagramLink: Value,
    facebookLink: Value,
    tiktokLink: Value,
    email: Value,
    phoneNumber: Value)

  /** The `group` literal the page filters and writes by. */
  const PageGroup: string := "home_page"

  /** The field list `save` iterates over, in source order. */
  const SaveFields: seq<string> :=
    ["status", "company_name", "company_address", "description",
     "instagram_link", "facebook_link", "tiktok_link",
     "email", "phone_number"]

  /** The value `loadSettings` falls back to when a field has no stored
      payload: `false` for the status toggle, null for the rest. */
  function Default(field: string): Value {
    if field == "status" then Some(JBool(false)) else None
  }

  /** `$settings[$field]->payload ?? $default`. */
  function Read(m: map<string, Store.Row>, field: string): Value {
    if field in m then Coalesce(m[field].payload, Default(field)) else Default(field)
  }

  /** `loadSettings`: the owner's home-page rows keyed by name, each field
      read with its default. */
  function Load(s: Store.Store, uid: Store.UserId): HomePageForm {
    FormOf(Store.Load(s, Some(uid), PageGroup))
  }

  /** Every field read from the rows keyed by name. */
  function FormOf(m: map<string, Store.Row>): HomePageForm {
    HomePageForm(
      Read(m, "status"), Read(m, "company_name"), Read(m, "company_address"),
      Read(m, "description"), Read(m, "instagram_link"), Read(m, "facebook_link"),
      Read(m, "tiktok_link"), Read(m, "email"), Read(m, "phone_number"))
  }

  /** The form's constraints written out field by field. */
  predicate Valid(f: HomePageForm, checks: FormatChecks) {
    && (IsEmpty(f.status) || IsBooleanLike(f.status.value))
    && IsPresent(f.companyName)
    && (IsEmpty(f.companyName) || (f.companyName.value.JStr? && |f.companyName.value.s| <= 255))
    && (IsEmpty(f.companyAddress) || (f.companyAddress.value.JStr? && |f.companyAddress.value.s| <= 256))
    && (IsEmpty(f.description) || (f.description.value.JStr? && |f.description.value.s| <= 256))
    && (IsEmpty(f.instagramLink) || (f.instagramLink.value.JStr? && checks.isUrl(f.instagramLink.value.s)))
    && (IsEmpty(f.facebookLink) || (f.facebookLink.value.JStr? && checks.isUrl(f.facebookLink.value.s)))
    && (IsEmpty(f.tiktokLink) || (f.tiktokLink.value.JStr? && checks.isUrl(f.tiktokLink.value.s)))
    && (IsEmpty(f.email) || (f.email.value.JStr? && |f.email.value.s| <= 255 && checks.isEmail(f.email.value.s)))
    && (IsEmpty(f.phoneNumber) || (f.phoneNumber.value.JStr? && |f.phoneNumber.value.s| <= 255
                                   && MatchesPhonePattern(f.phoneNumber.value.s)))
  }

  /** `$this->validate()`: the errors of every field, in form order, each
      field checked against the rules the form declares for it; the status
      toggle brings its own `boolean` rule. */
  function Validate(f: HomePageForm, checks: FormatChecks): (errs: seq<FieldError>)
    ensures |errs| == 0 <==> Valid(f, checks)
  {
    var e0 := CheckField("status", f.status, [Boolean], checks);
    var e1 := CheckField("company_name", f.companyName, [Required, MaxLength(255)], checks);
    var e2 := CheckField("company_address", f.companyAddress, [MaxLength(256)], checks);
    var e3 := CheckField("description", f.description, [MaxLength(256)], checks);
    var e4 := CheckField("instagram_link", f.instagramLink, [Url], checks);
    var e5 := CheckField("facebook_link", f.facebookLink, [Url], checks);
    var e6 := CheckField("tiktok_link", f.tiktokLink, [Url], checks);
    var e7 := CheckField("email", f.email, [MaxLength(255), Rule.Email], checks);
    var e8 := CheckField("phone_number", f.phoneNumber, [MaxLength(255), PhonePattern], checks);
    PassesBoth("company_name", f.companyName, Required, MaxLength(255), checks);
    PassesBoth("email", f.email, MaxLength(255), Rule.Email, checks);
    PassesBoth("phone_number", f.phoneNumber, MaxLength(255), PhonePattern, checks);
    assert |e0| == 0 <==> Passes(Boolean, f.status, checks);
    assert |e2| == 0 <==> Passes(MaxLength(256), f.companyAddress, checks);
    assert |e3| == 0 <==> Passes(MaxLength(256), f.description, checks);
    assert |e4| == 0 <==> Passes(Url, f.instagramLink, checks);
    assert |e5| == 0 <==> Passes(Url, f.facebookLink, checks);
    assert |e6| == 0 <==> Passes(Url, f.tiktokLink, checks);
    e0 + e1 + e2 + e3 + e4 + e5 + e6 + e7 + e8
  }

  /** A field with two rules is clean exactly when it passes both. */
  lemma PassesBoth(field: string, v: Value, r1: Rule, r2: Rule, checks: FormatChecks)
    ensures |CheckField(field, v, [r1, r2], checks)| == 0 <==> Passes(r1, v, checks) && Passes(r2, v, checks)
  {
    var rules := [r1, r2];
    assert rules[0] == r1 && rules[1] == r2;
  }

  /** What the save loop writes: each listed field with its property
      (`$this->$field`). */
  function Entries(f: HomePageForm): seq<Store.Entry> {
    [Store.Entry("status", f.status), Store.Entry("company_name", f.companyName),
     Store.Entry("company_address", f.companyAddress), Store.Entry("description", f.description),
     Store.Entry("instagram_link", f.instagramLink), Store.Entry("facebook_link", f.facebookLink),
     Store.Entry("tiktok_link", f.tiktokLink), Store.Entry("email", f.email),
     Store.Entry("phone_number", f.phoneNumber)]
  }

  /** The store after a save, and the errors that stopped it, if any. */
  datatype SaveOutcome = SaveOutcome(store: Store.Store, errors: seq<FieldError>)

  /** `save`: validate, then upsert every listed field under the owner and
      the home-page group. A rejected form writes nothing. */
  function Save(s: Store.Store, uid: Store.UserId, f: HomePageForm, checks: FormatChecks): (r: SaveOutcome)
    ensures |r.errors| == 0 <==> Valid(f, checks)
    ensures |r.errors| > 0 ==> r.store == s
  {
    var errs := Validate(f, checks);
    if |errs| > 0 then SaveOutcome(s, errs)
    else SaveOutcome(Store.UpsertAll(s, Some(uid), PageGroup, Entries(f)), [])
  }

  /** A status the toggle's `boolean` rule rejects, such as "yes" or 2,
      stops the save: there are errors and nothing is written. */
  lemma NonBooleanStatusRejected(s: Store.Store, uid: Store.UserId, f: HomePageForm, checks: FormatChecks)
    requires !IsEmpty(f.status) && !IsBooleanLike(f.status.value)
    ensures |Save(s, uid, f, checks).errors| > 0
    ensures Save(s, uid, f, checks).store == s
  {
  }

  /** "View site" is shown when the status and the company name are both
      truthy. */
  predicate ViewSiteVisible(f: HomePageForm) {
    Truthy(f.status) && Truthy(f.companyName)
  }

  /** What `loadSettings` promises: the form a save of `f` reads back, each
      null field replaced by its default. */
  function Normalized(f: HomePageForm): HomePageForm {
    HomePageForm(
      Coalesce(f.status, Default("status")), Coalesce(f.companyName, None),
      Coalesce(f.companyAddress, None), Coalesce(f.description, None),
      Coalesce(f.instagramLink, None), Coalesce(f.facebookLink, None),
      Coalesce(f.tiktokLink, None), Coalesce(f.email, None), Coalesce(f.phoneNumber, None))
  }

  /** The save list is the home-page group of the enum, in declaration
      order: its i-th name is the backing string of the group's i-th case. */
  lemma SaveFieldsListHomePage()
    ensures |SaveFields| == |NamesIn(HomePage)| == 9
    ensures forall i :: 0 <= i < |SaveFields| ==> SaveFields[i] == Key(NamesIn(HomePage)[i])
  {
    HomePageNames();
    var h := NamesIn(HomePage);
    forall i | 0 <= i < |SaveFields|
      ensures SaveFields[i] == Key(h[i])
    {
      if i == 0 { assert h[0] == Status; }
      else if i == 1 { assert h[1] == CompanyName; }
      else if i == 2 { assert h[2] == CompanyAddress; }
      else if i == 3 { assert h[3] == Description; }
      else if i == 4 { assert h[4] == InstagramLink; }
      else if i == 5 { assert h[5] == FacebookLink; }
      else if i == 6 { assert h[6] == TiktokLink; }
      else if i == 7 { assert h[7] == SettingName.Email; }
      else { assert h[8] == PhoneNumber; }
    }
  }

  /** A backing string is on the save list exactly when its case is in the
      home-page group. */
  lemma SaveFieldsPreimage(n: SettingName)
    ensures Key(n) in SaveFields <==> Group(n) == HomePage
  {
    match n
    case Status => assert SaveFields[0] == Key(n);
    case CompanyName => assert SaveFields[1] == Key(n);
    case CompanyAddress => assert SaveFields[2] == Key(n);
    case Description => assert SaveFields[3] == Key(n);
    case InstagramLink => assert SaveFields[4] == Key(n);
    case FacebookLink => assert SaveFields[5] == Key(n);
    case TiktokLink => assert SaveFields[6] == Key(n);
    case Email => assert SaveFields[7] == Key(n);
    case PhoneNumber => assert SaveFields[8] == Key(n);
    case Logo =>
    case Favicon =>
  }

  /** Every name on the save list belongs to the home-page group. */
  lemma FieldBelongsToGroup(field: string)
    requires field in SaveFields
    ensures GroupAgreement.BelongsTo(field, PageGroup)
  {
    SaveFieldsListHomePage();
    var i :| 0 <= i < |SaveFields| && SaveFields[i] == field;
    var n := NamesIn(HomePage)[i];
    NamesInIsPreimage(n, HomePage);
    KeyRoundTrip(n);
  }

  /** The save loop writes the save list, in order, and no field twice. */
  lemma EntriesAreSaveFields(f: HomePageForm)
    ensures |Entries(f)| == |SaveFields|
    ensures forall i :: 0 <= i < |SaveFields| ==> Entries(f)[i].name == SaveFields[i]
    ensures Store.DistinctNames(Entries(f))
  {
  }

  /** Rows holding every entry's payload read back as the form, null fields
      replaced by their defaults. */
  lemma FormOfBindings(m: map<string, Store.Row>, f: HomePageForm)
    requires forall i :: 0 <= i < |Entries(f)| ==>
      Entries(f)[i].name in m && m[Entries(f)[i].name].payload == Entries(f)[i].payload
    ensures FormOf(m) == Normalized(f)
  {
    var e := Entries(f);
    assert e[0].name in m && e[1].name in m && e[2].name in m;
    assert e[3].name in m && e[4].name in m && e[5].name in m;
    assert e[6].name in m && e[7].name in m && e[8].name in m;
  }

  /** Only the owner's home-page rows are read: the page loads the same form
      from any two stores that hold the same such rows in the same order,
      whatever their other rows. */
  lemma LoadReadsOnlyOwnRows(s: Store.Store, t: Store.Store, uid: Store.UserId)
    requires Store.Scope(s, Some(uid), PageGroup) == Store.Scope(t, Some(uid), PageGroup)
    ensures Load(s, uid) == Load(t, uid)
  {
    Store.LoadDependsOnlyOnScope(s, t, Some(uid), PageGroup);
  }

  /** On a store with no row for the owner's home page, every field has its
      default: status off, everything else null. */
  lemma LoadDefaults(s: Store.Store, uid: Store.UserId)
    requires forall i :: 0 <= i < |s| ==> !Store.InScope(s[i], Some(uid), PageGroup)
    ensures Load(s, uid) == HomePageForm(Some(JBool(false)), None, None, None, None, None, None, None, None)
  {
    forall k: string
      ensures k !in Store.Load(s, Some(uid), PageGroup)
    {
      Store.LoadKeys(s, Some(uid), PageGroup, k);
    }
  }

  /** Round trip: after a successful save on a store with at most one row
      per name among the user's home-page rows, loading gives back every
      saved field, with null fields read as their defaults. */
  lemma SaveRoundTrip(s: Store.Store, uid: Store.UserId, f: HomePageForm, checks: FormatChecks)
    requires Store.UniqueIn(s, Some(uid), PageGroup)
    requires Valid(f, checks)
    ensures Load(Save(s, uid, f, checks).store, uid) == Normalized(f)
  {
    var e := Entries(f);
    var m0 := Store.Load(s, Some(uid), PageGroup);
    Store.LoadAfterUpsertAll(s, Some(uid), PageGroup, e);
    EntriesAreSaveFields(f);
    forall i | 0 <= i < |e|
      ensures e[i].name in Store.Overlay(m0, Some(uid), PageGroup, e)
      ensures Store.Overlay(m0, Some(uid), PageGroup, e)[e[i].name].payload == e[i].payload
    {
      Store.OverlayBinds(m0, Some(uid), PageGroup, e, i);
    }
    FormOfBindings(Store.Overlay(m0, Some(uid), PageGroup, e), f);
  }

  /** Isolation: a save changes what no other owner and no other group
      loads, and leaves every row of another owner or group where it was. */
  lemma SaveIsolation(s: Store.Store, uid: Store.UserId, f: HomePageForm, checks: FormatChecks,
                      otherOwner: Option<Store.UserId>, otherGroup: string)
    requires otherOwner != Some(uid) || otherGroup != PageGroup
    ensures var t := Save(s, uid, f, checks).store;
      && Store.Load(t, otherOwner, otherGroup) == Store.Load(s, otherOwner, otherGroup)
      && |s| <= |t|
      && forall i :: 0 <= i < |s| && !Store.InScope(s[i], Some(uid), PageGroup) ==> t[i] == s[i]
  {
    if Valid(f, checks) {
      Store.LoadOtherScopeAfterUpsertAll(s, Some(uid), PageGroup, Entries(f), otherOwner, otherGroup);
      Store.UpsertAllSpec(s, Some(uid), PageGroup, Entries(f));
    }
  }

  /** The rows a save adds are the owner's home-page rows of listed fields. */
  lemma SaveAddsOnlyOwnRows(s: Store.Store, uid: Store.UserId, f: HomePageForm, checks: FormatChecks)
    ensures var t := Save(s, uid, f, checks).store;
      forall i :: |s| <= i < |t| ==>
        t[i].owner == Some(uid) && t[i].group == PageGroup && t[i].name in SaveFields
  {
    if Valid(f, checks) {
      var e := Entries(f);
      Store.UpsertAllSpec(s, Some(uid), PageGroup, e);
      EntriesAreSaveFields(f);
      var t := Save(s, uid, f, checks).store;
      forall i | |s| <= i < |t|
        ensures t[i].name in SaveFields
      {
        var names := Store.EntryNames(e);
        var k :| 0 <= k < |names| && names[k] == t[i].name;
        assert SaveFields[k] == t[i].name;
      }
    }
  }

  /** Saving the same form twice leaves the same store as saving it once. */
  lemma SaveIdempotent(s: Store.Store, uid: Store.UserId, f: HomePageForm, checks: FormatChecks)
    ensures var once := Save(s, uid, f, checks);
      Save(once.store, uid, f, checks) == once
  {
    if Valid(f, checks) {
      EntriesAreSaveFields(f);
      Store.UpsertAllIdempotent(s, Some(uid), PageGroup, Entries(f));
    }
  }

  /** A save never creates a second row for a triple, in the whole table,
      among owned rows, or within any one owner and group, and never puts a
      setting under the wrong group. */
  lemma SavePreservesInvariants(s: Store.Store, uid: Store.UserId, f: HomePageForm, checks: FormatChecks,
                                scopeOwner: Option<Store.UserId>, scopeGroup: string)
    ensures Store.Unique(s) ==> Store.Unique(Save(s, uid, f, checks).store)
    ensures Store.UniqueOwned(s) ==> Store.UniqueOwned(Save(s, uid, f, checks).store)
    ensures Store.UniqueIn(s, scopeOwner, scopeGroup) ==> Store.UniqueIn(Save(s, uid, f, checks).store, scopeOwner, scopeGroup)
    ensures GroupAgreement.GroupsAgree(s) ==> GroupAgreement.GroupsAgree(Save(s, uid, f, checks).store)
  {
    if Valid(f, checks) {
      var e := Entries(f);
      if Store.Unique(s) {
        Store.UpsertAllPreservesUnique(s, Some(uid), PageGroup, e);
      }
      if Store.UniqueOwned(s) {
        Store.UpsertAllPreservesUniqueOwned(s, Some(uid), PageGroup, e);
      }
      if Store.UniqueIn(s, scopeOwner, scopeGroup) {
        Store.UpsertAllPreservesUniqueIn(s, Some(uid), PageGroup, e, scopeOwner, scopeGroup);
      }
      if GroupAgreement.GroupsAgree(s) {
        EntriesAreSaveFields(f);
        forall i | 0 <= i < |e|
          ensures GroupAgreement.BelongsTo(e[i].name, PageGroup)
        {
          FieldBelongsToGroup(SaveFields[i]);
        }
        GroupAgreement.UpsertAllKeepsAgreement(s, Some(uid), PageGroup, e);
      }
    }
  }

  /** After loading, "View site" shows exactly when the owner's last status
      row and last company-name row both hold truthy payloads; the defaults
      never show it. */
  lemma ViewSiteAfterLoad(s: Store.Store, uid: Store.UserId)
    ensures var m := Store.Load(s, Some(uid), PageGroup);
      ViewSiteVisible(Load(s, uid)) <==>
        && "status" in m && Truthy(m["status"].payload)
        && "company_name" in m && Truthy(m["company_name"].payload)
  {
  }

  /** After a successful save on a store with one row per name in the
      user's home page, "View site" shows exactly when the saved status and
      company name are truthy. */
  lemma ViewSiteAfterSave(s: Store.Store, uid: Store.UserId, f: HomePageForm, checks: FormatChecks)
    requires Store.UniqueIn(s, Some(uid), PageGroup) && Valid(f, checks)
    ensures ViewSiteVisible(Load(Save(s, uid, f, checks).store, uid)) <==> Truthy(f.status) && Truthy(f.companyName)
  {
    SaveRoundTrip(s, uid, f, checks);
  }

  /** A company name of "0" passes `required` yet is falsy in PHP, so a
      saved page with that name keeps "View site" hidden, whatever the
      status. */
  lemma ZeroCompanyNameHidesViewSite(s: Store.Store, uid: Store.UserId, f: HomePageForm, checks: FormatChecks)
    requires Store.UniqueIn(s, Some(uid), PageGroup)
    requires Valid(f, checks) && f.companyName == Some(JStr("0"))
    ensures !ViewSiteVisible(Load(Save(s, uid, f, checks).store, uid))
  {
    ViewSiteAfterSave(s, uid, f, checks);
  }

  /** Such a form exists: status on, company name "0", every other field
      empty is valid. */
  lemma ZeroCompanyFormValid(checks: FormatChecks)
    ensures var f := HomePageForm(Some(JBool(true)), Some(JStr("0")), None, None, None, None, None, None, None);
      Valid(f, checks) && Truthy(f.status)
  {
    assert !IsBlank("0") by { assert !IsTrimChar("0"[0]); }
  }

  /** A user's life cycle on an empty table: the page loads the defaults;
      after a valid save it reads the form back; once the user is deleted
      the page shows the defaults again while the saved rows stay in the
      table, ownerless. */
  lemma FreshUserLifecycle(uid: Store.UserId, f: HomePageForm, checks: FormatChecks)
    requires Valid(f, checks)
    ensures Load([], uid) == HomePageForm(Some(JBool(false)), None, None, None, None, None, None, None, None)
    ensures var t := Save([], uid, f, checks).store;
      && Load(t, uid) == Normalized(f)
      && Load(Store.DeleteOwner(t, uid), uid) == Load([], uid)
      && |Store.DeleteOwner(t, uid)| == |t| > 0
      && forall i :: 0 <= i < |t| ==> Store.DeleteOwner(t, uid)[i].owner == None
  {
    LoadDefaults([], uid);
    var t := Save([], uid, f, checks).store;
    SaveRoundTrip([], uid, f, checks);
    Store.LoadAfterDeleteOwner(t, uid, uid + 1, PageGroup);
    LoadDefaults(Store.DeleteOwner(t, uid), uid);
    SaveAddsOnlyOwnRows([], uid, f, checks);
    assert |t| > 0 by {
      assert Load(t, uid).companyName != None;
      Store.LoadKeys(t, Some(uid), PageGroup, "company_name");
    }
  }

  /** A stored row may hold a null payload; the page then shows the field's
      default, so a null status row reads as "off". */
  lemma NullPayloadReadsAsDefault(s: Store.Store, uid: Store.UserId, field: string, i: nat)
    requires i < |s| && Store.Matches(s[i], Some(uid), PageGroup, field) && IsNull(s[i].payload)
    requires forall j :: i < j < |s| ==> !Store.Matches(s[j], Some(uid), PageGroup, field)
    ensures Read(Store.Load(s, Some(uid), PageGroup), field) == Default(field)
    ensures field == "status" ==> Load(s, uid).status == Some(JBool(false))
  {
    Store.LoadLastWins(s, Some(uid), PageGroup, i);
  }

  /** Deleting two users who both saved a status leaves two ownerless rows
      for it. */
  lemma DeletionsOrphanRows()
    ensures Store.DeleteOwner(Store.DeleteOwner(
              [Store.Row(Some(1), PageGroup, "status", None), Store.Row(Some(2), PageGroup, "status", None)], 1), 2)
         == [Store.Row(None, PageGroup, "status", None), Store.Row(None, PageGroup, "status", None)]
  {
    var s1 := Store.DeleteOwner(
      [Store.Row(Some(1), PageGroup, "status", None), Store.Row(Some(2), PageGroup, "status", None)], 1);
    assert s1 == [Store.Row(None, PageGroup, "status", None), Store.Row(Some(2), PageGroup, "status", None)];
  }

  /** After those deletions the table is no longer unique, the owned rows
      still are, and a third user's save still reads back. */
  lemma RoundTripAfterDeletions(f: HomePageForm, checks: FormatChecks)
    requires Valid(f, checks)
    ensures var s := Store.DeleteOwner(Store.DeleteOwner(
              [Store.Row(Some(1), PageGroup, "status", None), Store.Row(Some(2), PageGroup, "status", None)], 1), 2);
      && !Store.Unique(s)
      && Store.UniqueOwned(s)
      && Load(Save(s, 3, f, checks).store, 3) == Normalized(f)
  {
    var s := [Store.Row(None, PageGroup, "status", None), Store.Row(None, PageGroup, "status", None)];
    DeletionsOrphanRows();
    assert Store.SameKey(s[0], s[1]);
    assert Store.UniqueIn(s, Some(3), PageGroup);
    SaveRoundTrip(s, 3, f, checks);
  }
}
