/** The general settings page: `loadSettings` and `save`.

    The page holds four properties. `logo` and `favicon` are stored settings
    of the general group. `domain` is the user's gallery link with the
    scheme text removed; the link comes from the router and is a parameter
    here. `custom_domain` is never assigned, so it stays null. The form
    declares no rules of its own; `validate()` is taken to pass, so `save`
    always writes. */
module GeneralSettings {
  import opened Wrappers
  import opened Json
  import opened SettingNames
  import GroupAgreement
  import Store = SettingsStore

  datatype GeneralForm = GeneralForm(logo: Value, favicon: Value, domain: string, customDomain: Value)

  /** The `group` literal the page filters and writes by. */
  const PageGroup: string := "general"

  /** The field list `save` iterates over. */
  const SaveFields: seq<string> := ["logo", "favicon"]

  /** The text `loadSettings` strips from the link. */
  const Scheme: string := "https://"

  /** `pat` occurs in `s` starting at `i`. */
  predicate OccursAt(s: string, pat: string, i: nat) {
    i + |pat| <= |s| && s[i..i + |pat|] == pat
  }

  /** `pat` occurs somewhere in `s`. */
  predicate Occurs(s: string, pat: string) {
    exists i: nat :: i + |pat| <= |s| && OccursAt(s, pat, i)
  }

  /** `Str::replace(pat, '', s)` (PHP's `str_replace`): scanning left to
      right, every occurrence of `pat` that does not overlap an earlier one
      is removed. The pieces left around a removed occurrence are not
      scanned again. */
  function RemoveAll(s: string, pat: string): (r: string)
    requires |pat| > 0
    decreases |s|
  {
    if |s| < |pat| then s
    else if s[..|pat|] == pat then RemoveAll(s[|pat|..], pat)
    else [s[0]] + RemoveAll(s[1..], pat)
  }

  /** Removal never lengthens the text, and when `pat` occurs it removes
      at least one whole occurrence. */
  lemma {:induction false} RemoveAllShortens(s: string, pat: string)
    requires |pat| > 0
    ensures |RemoveAll(s, pat)| <= |s|
    ensures Occurs(s, pat) ==> |RemoveAll(s, pat)| <= |s| - |pat|
    decreases |s|
  {
    if |s| >= |pat| {
      if s[..|pat|] == pat {
        RemoveAllShortens(s[|pat|..], pat);
      } else {
        RemoveAllShortens(s[1..], pat);
        if Occurs(s, pat) {
          var i: nat :| i + |pat| <= |s| && OccursAt(s, pat, i);
          assert i != 0;
          assert s[1..][i - 1..i - 1 + |pat|] == s[i..i + |pat|];
          assert OccursAt(s[1..], pat, i - 1);
        }
      }
    }
  }

  /** A text without an occurrence is left as it is. */
  lemma {:induction false} RemoveAllNoOccurrence(s: string, pat: string)
    requires |pat| > 0 && !Occurs(s, pat)
    ensures RemoveAll(s, pat) == s
    decreases |s|
  {
    if |s| >= |pat| {
      assert !OccursAt(s, pat, 0);
      assert s[..|pat|] != pat;
      forall i: nat
        ensures !OccursAt(s[1..], pat, i)
      {
        assert !OccursAt(s, pat, i + 1);
        if i + |pat| <= |s[1..]| {
          assert s[1..][i..i + |pat|] == s[i + 1..i + 1 + |pat|];
        }
      }
      RemoveAllNoOccurrence(s[1..], pat);
      assert [s[0]] + s[1..] == s;
    }
  }

  /** The removal changes the text exactly when `pat` occurs in it. */
  lemma RemoveAllChangesIffOccurs(s: string, pat: string)
    requires |pat| > 0
    ensures RemoveAll(s, pat) == s <==> !Occurs(s, pat)
  {
    RemoveAllShortens(s, pat);
    if !Occurs(s, pat) {
      RemoveAllNoOccurrence(s, pat);
    }
  }

  /** One leading occurrence followed by text without one: the removal
      leaves exactly that text. */
  lemma RemoveAllPrefix(rest: string, pat: string)
    requires |pat| > 0 && !Occurs(rest, pat)
    ensures RemoveAll(pat + rest, pat) == rest
  {
    var s := pat + rest;
    assert s[..|pat|] == pat;
    assert s[|pat|..] == rest;
    RemoveAllNoOccurrence(rest, pat);
  }

  /** The removal works left to right: up to the leftmost occurrence the
      text is kept, that occurrence is dropped, and the removal resumes
      after it. With `RemoveAllNoOccurrence` this determines the result on
      every text. */
  lemma RemoveAllLeftmost(s: string, pat: string, i: nat)
    requires |pat| > 0 && OccursAt(s, pat, i)
    requires forall j: nat :: j < i ==> !OccursAt(s, pat, j)
    ensures RemoveAll(s, pat) == s[..i] + RemoveAll(s[i + |pat|..], pat)
  {
    var a, b := s[..i], s[i..];
    assert a + b == s;
    RemoveAllKeepsPrefix(a, b, pat);
    assert b[..|pat|] == s[i..i + |pat|];
    RemoveAllFront(b, pat);
    assert b[|pat|..] == s[i + |pat|..];
  }

  /** Text in which no occurrence starts is kept as it is, and the removal
      carries on with what follows. */
  lemma {:induction false} RemoveAllKeepsPrefix(a: string, b: string, pat: string)
    requires |pat| > 0
    requires forall j: nat :: j < |a| ==> !OccursAt(a + b, pat, j)
    ensures RemoveAll(a + b, pat) == a + RemoveAll(b, pat)
    decreases |a|
  {
    if |a| == 0 {
      assert a + b == b;
    } else {
      RemoveAllSkip(a + b, pat);
      PrefixTail(a, b, pat);
      RemoveAllKeepsPrefix(a[1..], b, pat);
      ConcatAssoc([a[0]], a[1..], RemoveAll(b, pat));
    }
  }

  /** Dropping the first character of `a` keeps `a + b` free of occurrences
      starting inside `a`. */
  lemma PrefixTail(a: string, b: string, pat: string)
    requires |a| > 0
    requires forall j: nat :: j < |a| ==> !OccursAt(a + b, pat, j)
    ensures (a + b)[1..] == a[1..] + b && (a + b)[0] == a[0] && [a[0]] + a[1..] == a
    ensures forall j: nat :: j < |a[1..]| ==> !OccursAt(a[1..] + b, pat, j)
  {
    assert (a + b)[1..] == a[1..] + b;
    forall j: nat | j < |a[1..]|
      ensures !OccursAt(a[1..] + b, pat, j)
    {
      OccursAtTail(a + b, pat, j);
    }
  }

  /** An occurrence at the front is dropped and the removal resumes after it. */
  lemma RemoveAllFront(s: string, pat: string)
    requires |pat| > 0 && |pat| <= |s| && s[..|pat|] == pat
    ensures RemoveAll(s, pat) == RemoveAll(s[|pat|..], pat)
  {
  }

  /** Without an occurrence at the front, the first character is kept. */
  lemma RemoveAllSkip(s: string, pat: string)
    requires |pat| > 0 && |s| > 0 && !OccursAt(s, pat, 0)
    ensures RemoveAll(s, pat) == [s[0]] + RemoveAll(s[1..], pat)
  {
    if |s| >= |pat| {
      assert s[..|pat|] == s[0..|pat|];
    } else {
      RemoveAllShortens(s[1..], pat);
      assert |s[1..]| < |pat|;
      assert [s[0]] + s[1..] == s;
    }
  }

  /** An occurrence in the tail is an occurrence one place later in `s`. */
  lemma OccursAtTail(s: string, pat: string, j: nat)
    requires |s| > 0
    ensures OccursAt(s[1..], pat, j) <==> OccursAt(s, pat, j + 1)
  {
    if j + 1 + |pat| <= |s| {
      assert s[1..][j..j + |pat|] == s[j + 1..j + 1 + |pat|];
    }
  }

  /** Concatenation is associative. */
  lemma ConcatAssoc(a: string, b: string, c: string)
    ensures a + (b + c) == (a + b) + c
  {
  }

  /** Every occurrence goes, not only the first: a doubled scheme is
      removed entirely. */
  lemma RemoveAllEveryOccurrence()
    ensures RemoveAll(Scheme + Scheme, Scheme) == ""
  {
    var s := Scheme + Scheme;
    assert OccursAt(s, Scheme, 0);
    RemoveAllLeftmost(s, Scheme, 0);
    assert s[|Scheme|..] == Scheme;
    assert OccursAt(Scheme, Scheme, 0);
    RemoveAllLeftmost(Scheme, Scheme, 0);
    assert Scheme[|Scheme|..] == "";
  }

  /** Removing the scheme is not a projection: the pieces left on both sides
      of a removed occurrence can join into a new one. */
  lemma RemoveAllCanLeaveScheme()
    ensures RemoveAll("hhttps://ttps://", Scheme) == Scheme
    ensures Occurs(RemoveAll("hhttps://ttps://", Scheme), Scheme)
  {
    var s := "hhttps://ttps://";
    assert s[..8] != Scheme by { assert s[1] != Scheme[1]; }
    assert s[1..][..8] == Scheme;
    assert s[1..][8..] == "ttps://";
    var tail := "ttps://";
    assert RemoveAll(tail, Scheme) == tail;
    assert OccursAt(Scheme, Scheme, 0);
  }

  /** `$settings[$field]->payload ?? null`. */
  function Read(m: map<string, Store.Row>, field: string): Value {
    if field in m then Coalesce(m[field].payload, None) else None
  }

  /** `loadSettings`, given the gallery link the router builds for the user. */
  function Load(s: Store.Store, uid: Store.UserId, homePageLink: string): GeneralForm {
    var m := Store.Load(s, Some(uid), PageGroup);
    GeneralForm(Read(m, "logo"), Read(m, "favicon"), RemoveAll(homePageLink, Scheme), None)
  }

  /** What the save loop writes: `logo` and `favicon` with their values. */
  function Entries(f: GeneralForm): seq<Store.Entry> {
    [Store.Entry("logo", f.logo), Store.Entry("favicon", f.favicon)]
  }

  /** `save`: with `validate()` passing, upsert both fields under the owner
      and the general group. */
  function Save(s: Store.Store, uid: Store.UserId, f: GeneralForm): Store.Store {
    Store.UpsertAll(s, Some(uid), PageGroup, Entries(f))
  }

  /** The save list is the general group of the enum: its i-th name is the
      backing string of the group's i-th case, and a backing string is on it
      exactly when its case is in the general group. */
  lemma SaveFieldsAreGeneralGroup(n: SettingName)
    ensures |SaveFields| == |NamesIn(General)| == 2
    ensures forall i :: 0 <= i < |SaveFields| ==> SaveFields[i] == Key(NamesIn(General)[i])
    ensures Key(n) in SaveFields <==> Group(n) == General
  {
    GeneralNames();
    NamesInIsPreimage(n, General);
    if Key(n) in SaveFields {
      var i :| 0 <= i < |SaveFields| && SaveFields[i] == Key(n);
      KeyInjective(n, NamesIn(General)[i]);
    }
  }

  /** The save loop writes the save list, in order, and no field twice. */
  lemma EntriesAreSaveFields(f: GeneralForm)
    ensures |Entries(f)| == |SaveFields|
    ensures forall i :: 0 <= i < |SaveFields| ==> Entries(f)[i].name == SaveFields[i]
    ensures Store.DistinctNames(Entries(f))
  {
  }

  /** The form `loadSettings` builds reads only the link and the owner's
      general rows: two stores holding the same such rows in the same order
      give the same form, whatever their other rows. `custom_domain` is
      never loaded, so it is null. */
  lemma LoadReads(s: Store.Store, t: Store.Store, uid: Store.UserId, link: string)
    requires Store.Scope(s, Some(uid), PageGroup) == Store.Scope(t, Some(uid), PageGroup)
    ensures Load(s, uid, link) == Load(t, uid, link)
    ensures Load(s, uid, link).customDomain == None
  {
    Store.LoadDependsOnlyOnScope(s, t, Some(uid), PageGroup);
  }

  /** With no general row for the owner, logo and favicon are null. */
  lemma LoadDefaults(s: Store.Store, uid: Store.UserId, link: string)
    requires forall i :: 0 <= i < |s| ==> !Store.InScope(s[i], Some(uid), PageGroup)
    ensures Load(s, uid, link).logo == None && Load(s, uid, link).favicon == None
  {
    Store.LoadKeys(s, Some(uid), PageGroup, "logo");
    Store.LoadKeys(s, Some(uid), PageGroup, "favicon");
  }

  /** The domain is the gallery link without its scheme, provided the rest
      of the link does not contain the scheme again; a link without the
      scheme is shown as it is. */
  lemma DomainOfLink(s: Store.Store, uid: Store.UserId, host: string)
    requires !Occurs(host, Scheme)
    ensures Load(s, uid, Scheme + host).domain == host
    ensures Load(s, uid, host).domain == host
  {
    RemoveAllPrefix(host, Scheme);
    RemoveAllNoOccurrence(host, Scheme);
  }

  /** Round trip: after a save on a store with at most one row per name
      among the user's general rows, loading gives back the saved logo and
      favicon. */
  lemma SaveRoundTrip(s: Store.Store, uid: Store.UserId, f: GeneralForm, link: string)
    requires Store.UniqueIn(s, Some(uid), PageGroup)
    ensures Load(Save(s, uid, f), uid, link).logo == Coalesce(f.logo, None)
    ensures Load(Save(s, uid, f), uid, link).favicon == Coalesce(f.favicon, None)
  {
    var e := Entries(f);
    var m0 := Store.Load(s, Some(uid), PageGroup);
    Store.LoadAfterUpsertAll(s, Some(uid), PageGroup, e);
    EntriesAreSaveFields(f);
    Store.OverlayBinds(m0, Some(uid), PageGroup, e, 0);
    Store.OverlayBinds(m0, Some(uid), PageGroup, e, 1);
  }

  /** `domain` and `custom_domain` are never persisted: the store a save
      leaves does not depend on them. */
  lemma SaveIgnoresDomains(s: Store.Store, uid: Store.UserId, f: GeneralForm, domain: string, customDomain: Value)
    ensures Save(s, uid, f.(domain := domain, customDomain := customDomain)) == Save(s, uid, f)
  {
    assert Entries(f.(domain := domain, customDomain := customDomain)) == Entries(f);
  }

  /** Isolation: a save changes what no other owner and no other group
      loads, keeps every row of another owner or group, and adds only the
      owner's general rows of listed fields. */
  lemma SaveIsolation(s: Store.Store, uid: Store.UserId, f: GeneralForm,
                      otherOwner: Option<Store.UserId>, otherGroup: string)
    requires otherOwner != Some(uid) || otherGroup != PageGroup
    ensures var t := Save(s, uid, f);
      && Store.Load(t, otherOwner, otherGroup) == Store.Load(s, otherOwner, otherGroup)
      && |s| <= |t|
      && (forall i :: 0 <= i < |s| && !Store.InScope(s[i], Some(uid), PageGroup) ==> t[i] == s[i])
      && (forall i :: |s| <= i < |t| ==>
            t[i].owner == Some(uid) && t[i].group == PageGroup && t[i].name in SaveFields)
  {
    var e := Entries(f);
    var t := Save(s, uid, f);
    Store.LoadOtherScopeAfterUpsertAll(s, Some(uid), PageGroup, e, otherOwner, otherGroup);
    Store.UpsertAllSpec(s, Some(uid), PageGroup, e);
    EntriesAreSaveFields(f);
    forall i | |s| <= i < |t|
      ensures t[i].name in SaveFields
    {
      var names := Store.EntryNames(e);
      var k :| 0 <= k < |names| && names[k] == t[i].name;
      assert SaveFields[k] == t[i].name;
    }
  }

  /** Saving the same form twice leaves the same store as saving it once. */
  lemma SaveIdempotent(s: Store.Store, uid: Store.UserId, f: GeneralForm)
    ensures Save(Save(s, uid, f), uid, f) == Save(s, uid, f)
  {
    EntriesAreSaveFields(f);
    Store.UpsertAllIdempotent(s, Some(uid), PageGroup, Entries(f));
  }

  /** Every name on the save list belongs to the general group. */
  lemma FieldBelongsToGroup(field: string)
    requires field in SaveFields
    ensures GroupAgreement.BelongsTo(field, PageGroup)
  {
    var n := if field == "logo" then Logo else Favicon;
    assert Key(n) == field;
    KeyRoundTrip(n);
  }

  /** A save never creates a second row for a triple, in the whole table,
      among owned rows, or within any one owner and group, and never puts a
      setting under the wrong group. */
  lemma SavePreservesInvariants(s: Store.Store, uid: Store.UserId, f: GeneralForm,
                                scopeOwner: Option<Store.UserId>, scopeGroup: string)
    ensures Store.Unique(s) ==> Store.Unique(Save(s, uid, f))
    ensures Store.UniqueOwned(s) ==> Store.UniqueOwned(Save(s, uid, f))
    ensures Store.UniqueIn(s, scopeOwner, scopeGroup) ==> Store.UniqueIn(Save(s, uid, f), scopeOwner, scopeGroup)
    ensures GroupAgreement.GroupsAgree(s) ==> GroupAgreement.GroupsAgree(Save(s, uid, f))
  {
    var e := Entries(f);
    if Store.Unique(s) {
      Store.UpsertAllPreservesUnique(s, Some(uid), PageGroup, e);
    }
    if Store.UniqueOwned(s) {
      Store.UpsertAllPreservesUniqueOwned(s, Some(uid), PageGroup, e);
    }
    if Store.UniqueIn(s, scopeOwner, scopeGroup) {
      Store.UpsertAllPreservesUniqueIn(s, Some(uid), PageGroup, e, scopeOwner, scopeGroup);
    }
    if GroupAgreement.GroupsAgree(s) {
      EntriesAreSaveFields(f);
      forall i | 0 <= i < |e|
        ensures GroupAgreement.BelongsTo(e[i].name, PageGroup)
      {
        FieldBelongsToGroup(SaveFields[i]);
      }
      GroupAgreement.UpsertAllKeepsAgreement(s, Some(uid), PageGroup, e);
    }
  }
}
