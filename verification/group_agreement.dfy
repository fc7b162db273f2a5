/** The `group` and `name` columns are free strings; that a stored name sits
    under the group `group()` assigns it rests only on the pages always
    writing the two together. This module states that agreement and shows a
    save loop keeps it when each name it writes belongs to its group. */
module GroupAgreement {
  import opened Wrappers
  import opened SettingNames
  import SettingsStore

  /** `name` is a setting key whose group's page literal is `group`. */
  predicate BelongsTo(name: string, group: string) {
    FromKey(name).Some? && GroupLiteral(Group(FromKey(name).value)) == group
  }

  /** Every row whose name is a setting key sits under that key's group. */
  predicate GroupsAgree(s: SettingsStore.Store) {
    forall i :: 0 <= i < |s| && FromKey(s[i].name).Some? ==> BelongsTo(s[i].name, s[i].group)
  }

  /** A save loop whose names all belong to its group keeps the agreement. */
  lemma UpsertAllKeepsAgreement(s: SettingsStore.Store, owner: Option<SettingsStore.UserId>, group: string,
                                e: seq<SettingsStore.Entry>)
    requires GroupsAgree(s)
    requires forall i :: 0 <= i < |e| ==> BelongsTo(e[i].name, group)
    ensures GroupsAgree(SettingsStore.UpsertAll(s, owner, group, e))
  {
    var t := SettingsStore.UpsertAll(s, owner, group, e);
    SettingsStore.UpsertAllSpec(s, owner, group, e);
    var names := SettingsStore.EntryNames(e);
    forall i | 0 <= i < |t| && FromKey(t[i].name).Some?
      ensures BelongsTo(t[i].name, t[i].group)
    {
      if i < |s| {
        assert SettingsStore.SameKey(t[i], s[i]);
      } else {
        var k :| 0 <= k < |names| && names[k] == t[i].name;
        assert BelongsTo(e[k].name, group);
      }
    }
  }

  /** A row put under the other group's literal breaks the agreement: the
      storage itself does not prevent it. */
  lemma MisplacedRowDisagrees()
    ensures !GroupsAgree([SettingsStore.Row(None, "home_page", "logo", None)])
  {
    var s := [SettingsStore.Row(None, "home_page", "logo", None)];
    assert FromKey(s[0].name) == Some(Logo);
  }
}
