/** The two settings pages share one table but never each other's rows: the
    group literals differ, so a save on one page leaves what the other page
    loads unchanged, for every user. */
module PageIndependence {
  import opened Wrappers
  import FieldRules
  import Store = SettingsStore
  import HomePageSettings
  import GeneralSettings

  /** A general save does not change any user's home page. */
  lemma GeneralSaveKeepsHomePage(s: Store.Store, uid: Store.UserId, f: GeneralSettings.GeneralForm, viewer: Store.UserId)
    ensures HomePageSettings.Load(GeneralSettings.Save(s, uid, f), viewer) == HomePageSettings.Load(s, viewer)
  {
    GeneralSettings.SaveIsolation(s, uid, f, Some(viewer), HomePageSettings.PageGroup);
  }

  /** A home-page save does not change any user's logo or favicon. */
  lemma HomePageSaveKeepsGeneral(s: Store.Store, uid: Store.UserId, f: HomePageSettings.HomePageForm,
                                 checks: FieldRules.FormatChecks, viewer: Store.UserId, link: string)
    ensures var t := HomePageSettings.Save(s, uid, f, checks).store;
      GeneralSettings.Load(t, viewer, link) == GeneralSettings.Load(s, viewer, link)
  {
    HomePageSettings.SaveIsolation(s, uid, f, checks, Some(viewer), GeneralSettings.PageGroup);
  }

  /** Saving one user's home page leaves every other user's home page as it
      was. */
  lemma HomePageSaveKeepsOtherUsers(s: Store.Store, uid: Store.UserId, f: HomePageSettings.HomePageForm,
                                    checks: FieldRules.FormatChecks, viewer: Store.UserId)
    requires viewer != uid
    ensures HomePageSettings.Load(HomePageSettings.Save(s, uid, f, checks).store, viewer) == HomePageSettings.Load(s, viewer)
  {
    HomePageSettings.SaveIsolation(s, uid, f, checks, Some(viewer), HomePageSettings.PageGroup);
  }
}
