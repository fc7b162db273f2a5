/** The `settings` table and the two queries the settings pages run on it.

    The table is a sequence of rows in primary-key order. Its migration
    declares no unique index, so nothing at the storage level stops two rows
    from sharing (owner, group, name); "at most one row per triple" is an
    invariant the writes must keep, and it is proved here, not assumed.

    - `Load` is `where(owner)->where(group)->get()->keyBy('name')`.
    - `Upsert` is `updateOrCreate`: the first row (in key order) matching the
      triple has its payload rewritten, otherwise a new row is appended.
    - `UpsertAll` is a page's `foreach` over its field list.
    - `DeleteOwner` and `RekeyOwner` are the foreign key's `nullOnDelete` and
      `cascadeOnUpdate` actions. */
module SettingsStore {
  import opened Wrappers
  import opened Json

  /** A key of the users table. */
  type UserId = nat

  /** One row; the surrogate `id` is the row's position in the store and the
      timestamps are not modelled. */
  datatype Row = Row(owner: Option<UserId>, group: string, name: string, payload: Value)

  type Store = seq<Row>

  /** One write of a page's save loop: a field name and the value saved. */
  datatype Entry = Entry(name: string, payload: Value)

  predicate InScope(r: Row, owner: Option<UserId>, group: string) {
    r.owner == owner && r.group == group
  }

  predicate Matches(r: Row, owner: Option<UserId>, group: string, name: string) {
    InScope(r, owner, group) && r.name == name
  }

  /** Same owner, group and name: the columns a write never changes. */
  predicate SameKey(a: Row, b: Row) {
    a.owner == b.owner && a.group == b.group && a.name == b.name
  }

  /** At most one row per (owner, group, name). */
  predicate Unique(s: Store) {
    forall i, j :: 0 <= i < j < |s| ==> !SameKey(s[i], s[j])
  }

  /** At most one row per triple among rows that still have an owner: the
      part of `Unique` that owner deletion keeps. */
  predicate UniqueOwned(s: Store) {
    forall i, j :: 0 <= i < j < |s| && s[i].owner.Some? ==> !SameKey(s[i], s[j])
  }

  /** At most one row per name within one owner and group: the part of
      `Unique` a page's load and save rely on. */
  predicate UniqueIn(s: Store, owner: Option<UserId>, group: string) {
    forall i, j :: 0 <= i < j < |s| && InScope(s[i], owner, group) ==> !SameKey(s[i], s[j])
  }

  /** Some row of `s` matches (owner, group, name). */
  ghost predicate HasMatch(s: Store, owner: Option<UserId>, group: string, name: string) {
    exists i :: 0 <= i < |s| && Matches(s[i], owner, group, name)
  }

  /** Row `k` is the first row matching the triple: the row
      `updateOrCreate`'s `first()` finds. */
  predicate IsFirstMatch(s: Store, owner: Option<UserId>, group: string, name: string, k: nat) {
    k < |s| && Matches(s[k], owner, group, name)
    && forall j :: 0 <= j < k ==> !Matches(s[j], owner, group, name)
  }

  /** The rows of one owner and group keyed by name; where a name occurs
      twice the later row replaces the earlier one, as `keyBy` does. */
  function Load(s: Store, owner: Option<UserId>, group: string): map<string, Row> {
    if |s| == 0 then map[]
    else
      var m := Load(s[..|s| - 1], owner, group);
      var last := s[|s| - 1];
      if InScope(last, owner, group) then m[last.name := last] else m
  }

  /** The rows of one owner and group, in table order: what the query's
      two `where` clauses select before `keyBy`. */
  function Scope(s: Store, owner: Option<UserId>, group: string): (r: Store)
    ensures |r| <= |s|
    ensures forall i :: 0 <= i < |r| ==> InScope(r[i], owner, group)
    ensures forall i :: 0 <= i < |s| && InScope(s[i], owner, group) ==> s[i] in r
  {
    if |s| == 0 then []
    else
      var last := s[|s| - 1];
      var r := Scope(s[..|s| - 1], owner, group) + (if InScope(last, owner, group) then [last] else []);
      assert forall i :: 0 <= i < |s| - 1 ==> s[i] == s[..|s| - 1][i];
      r
  }

  /** The scope holds each in-scope row as many times as the table does,
      and no other row: the query selects rows of the table and nothing
      else. */
  lemma {:induction false} ScopeCounts(s: Store, owner: Option<UserId>, group: string)
    ensures forall x :: multiset(Scope(s, owner, group))[x] == if InScope(x, owner, group) then multiset(s)[x] else 0
  {
    if |s| > 0 {
      ScopeCounts(s[..|s| - 1], owner, group);
      ScopeCountsStep(s, Scope(s[..|s| - 1], owner, group), owner, group);
    }
  }

  /** The multiset step of `Scope`: appending the last row when it is in
      scope keeps the counts equal to the table's in-scope counts. */
  lemma ScopeCountsStep(s: Store, r0: Store, owner: Option<UserId>, group: string)
    requires |s| > 0
    requires forall x :: multiset(r0)[x] == if InScope(x, owner, group) then multiset(s[..|s| - 1])[x] else 0
    ensures forall x :: multiset(r0 + (if InScope(s[|s| - 1], owner, group) then [s[|s| - 1]] else []))[x]
                       == if InScope(x, owner, group) then multiset(s)[x] else 0
  {
    assert s == s[..|s| - 1] + [s[|s| - 1]];
  }

  /** `keyBy` sees only the selected rows: loading the scope's rows gives
      the same map as loading the whole table. */
  lemma {:induction false} LoadOfScope(s: Store, owner: Option<UserId>, group: string)
    ensures Load(Scope(s, owner, group), owner, group) == Load(s, owner, group)
  {
    if |s| > 0 {
      var init := s[..|s| - 1];
      var last := s[|s| - 1];
      LoadOfScope(init, owner, group);
      var x := Scope(init, owner, group);
      if InScope(last, owner, group) {
        assert Scope(s, owner, group) == x + [last];
        assert (x + [last])[..|x|] == x;
      } else {
        assert Scope(s, owner, group) == x + [];
        assert x + [] == x;
      }
    }
  }

  /** Two tables whose rows of one owner and group are the same, in the same
      order, load the same map for that owner and group, whatever their
      other rows. */
  lemma LoadDependsOnlyOnScope(s: Store, t: Store, owner: Option<UserId>, group: string)
    requires Scope(s, owner, group) == Scope(t, owner, group)
    ensures Load(s, owner, group) == Load(t, owner, group)
  {
    LoadOfScope(s, owner, group);
    LoadOfScope(t, owner, group);
  }

  /** `updateOrCreate`: rewrite the payload of the first row matching the
      triple, or append a new row when none does. */
  function Upsert(s: Store, owner: Option<UserId>, group: string, name: string, payload: Value): Store {
    if |s| == 0 then [Row(owner, group, name, payload)]
    else if Matches(s[0], owner, group, name) then [s[0].(payload := payload)] + s[1..]
    else [s[0]] + Upsert(s[1..], owner, group, name, payload)
  }

  /** The payload of the first row matching the triple: the row
      `updateOrCreate` finds. */
  function FirstPayload(s: Store, owner: Option<UserId>, group: string, name: string): Option<Value> {
    if |s| == 0 then None
    else if Matches(s[0], owner, group, name) then Some(s[0].payload)
    else FirstPayload(s[1..], owner, group, name)
  }

  /** Some row matches: split at the front row. */
  lemma HasMatchCons(s: Store, owner: Option<UserId>, group: string, name: string)
    requires |s| > 0
    ensures HasMatch(s, owner, group, name) <==>
      Matches(s[0], owner, group, name) || HasMatch(s[1..], owner, group, name)
  {
    if HasMatch(s, owner, group, name) && !Matches(s[0], owner, group, name) {
      var i :| 0 <= i < |s| && Matches(s[i], owner, group, name);
      assert s[1..][i - 1] == s[i];
    }
    if HasMatch(s[1..], owner, group, name) {
      var i :| 0 <= i < |s[1..]| && Matches(s[1..][i], owner, group, name);
      assert s[i + 1] == s[1..][i];
    }
  }

  /** Some row matches: split at the last row. */
  lemma HasMatchSnoc(s: Store, owner: Option<UserId>, group: string, name: string)
    requires |s| > 0
    ensures HasMatch(s, owner, group, name) <==>
      HasMatch(s[..|s| - 1], owner, group, name) || Matches(s[|s| - 1], owner, group, name)
  {
    var init := s[..|s| - 1];
    if HasMatch(s, owner, group, name) && !Matches(s[|s| - 1], owner, group, name) {
      var i :| 0 <= i < |s| && Matches(s[i], owner, group, name);
      assert init[i] == s[i];
    }
    if HasMatch(init, owner, group, name) {
      var i :| 0 <= i < |init| && Matches(init[i], owner, group, name);
      assert s[i] == init[i];
    }
  }

  /** `Load` returns exactly the names some row of the owner and group
      carries, each bound to a row of that owner, group and name. */
  lemma {:induction false} LoadKeys(s: Store, owner: Option<UserId>, group: string, name: string)
    ensures name in Load(s, owner, group) <==> HasMatch(s, owner, group, name)
    ensures name in Load(s, owner, group) ==> Matches(Load(s, owner, group)[name], owner, group, name)
  {
    if |s| > 0 {
      LoadKeys(s[..|s| - 1], owner, group, name);
      HasMatchSnoc(s, owner, group, name);
    }
  }

  /** Where a name occurs more than once, `Load` returns its last row. */
  lemma {:induction false} LoadLastWins(s: Store, owner: Option<UserId>, group: string, i: nat)
    requires i < |s| && InScope(s[i], owner, group)
    requires forall j :: i < j < |s| ==> !Matches(s[j], owner, group, s[i].name)
    ensures s[i].name in Load(s, owner, group)
    ensures Load(s, owner, group)[s[i].name] == s[i]
  {
    var init := s[..|s| - 1];
    if i < |s| - 1 {
      assert init[i] == s[i];
      LoadLastWins(init, owner, group, i);
    }
  }

  /** What `updateOrCreate` does to the table: a row is appended exactly
      when none matched; no row changes its owner, group or name; only a
      matching row can change, and of those only the first, whose payload
      is rewritten; afterwards the first match holds the new payload. */
  lemma {:induction false} UpsertSpec(s: Store, owner: Option<UserId>, group: string, name: string, payload: Value)
    ensures var t := Upsert(s, owner, group, name, payload);
      && (|t| == |s| <==> HasMatch(s, owner, group, name))
      && (!HasMatch(s, owner, group, name) ==> t == s + [Row(owner, group, name, payload)])
      && |s| <= |t|
      && (forall i :: 0 <= i < |s| ==> SameKey(t[i], s[i]))
      && (forall i :: 0 <= i < |s| && !Matches(s[i], owner, group, name) ==> t[i] == s[i])
      && FirstPayload(t, owner, group, name) == Some(payload)
      && (forall k: nat :: IsFirstMatch(s, owner, group, name, k) ==>
            && |t| == |s|
            && t[k] == s[k].(payload := payload)
            && forall i :: 0 <= i < |s| && i != k ==> t[i] == s[i])
  {
    UpsertLength(s, owner, group, name, payload);
    UpsertKeepsRows(s, owner, group, name, payload);
    forall k: nat | IsFirstMatch(s, owner, group, name, k)
      ensures var t := Upsert(s, owner, group, name, payload);
        && |t| == |s| && t[k] == s[k].(payload := payload)
        && forall i :: 0 <= i < |s| && i != k ==> t[i] == s[i]
    {
      UpsertRewritesFirstMatch(s, owner, group, name, payload, k);
    }
  }

  /** The length part of `UpsertSpec`: a row is appended exactly when none
      matched. */
  lemma {:induction false} UpsertLength(s: Store, owner: Option<UserId>, group: string, name: string, payload: Value)
    ensures var t := Upsert(s, owner, group, name, payload);
      && (|t| == |s| <==> HasMatch(s, owner, group, name))
      && (!HasMatch(s, owner, group, name) ==> t == s + [Row(owner, group, name, payload)])
      && |s| <= |t|
  {
    if |s| > 0 {
      HasMatchCons(s, owner, group, name);
      if !Matches(s[0], owner, group, name) {
        UpsertLength(s[1..], owner, group, name, payload);
        assert s == [s[0]] + s[1..];
      } else {
        assert HasMatch(s, owner, group, name);
      }
    }
  }

  /** The row part of `UpsertSpec`: keys stay, rows that do not match stay,
      and the first match afterwards holds the payload. */
  lemma {:induction false} UpsertKeepsRows(s: Store, owner: Option<UserId>, group: string, name: string, payload: Value)
    ensures var t := Upsert(s, owner, group, name, payload);
      && |s| <= |t|
      && (forall i :: 0 <= i < |s| ==> SameKey(t[i], s[i]))
      && (forall i :: 0 <= i < |s| && !Matches(s[i], owner, group, name) ==> t[i] == s[i])
      && FirstPayload(t, owner, group, name) == Some(payload)
  {
    if |s| > 0 && !Matches(s[0], owner, group, name) {
      UpsertKeepsRows(s[1..], owner, group, name, payload);
      var t := Upsert(s, owner, group, name, payload);
      var rest := Upsert(s[1..], owner, group, name, payload);
      assert forall i :: 1 <= i < |t| ==> t[i] == rest[i - 1];
      assert forall i :: 1 <= i < |s| ==> s[i] == s[1..][i - 1];
    }
  }

  /** Only the first matching row is rewritten; later matches stay. */
  lemma {:induction false} UpsertRewritesFirstMatch(s: Store, owner: Option<UserId>, group: string, name: string, payload: Value, k: nat)
    requires IsFirstMatch(s, owner, group, name, k)
    ensures var t := Upsert(s, owner, group, name, payload);
      && |t| == |s|
      && t[k] == s[k].(payload := payload)
      && forall i :: 0 <= i < |s| && i != k ==> t[i] == s[i]
  {
    if k > 0 {
      assert !Matches(s[0], owner, group, name);
      forall j | 0 <= j < k - 1
        ensures !Matches(s[1..][j], owner, group, name)
      {
        assert s[1..][j] == s[j + 1];
      }
      UpsertRewritesFirstMatch(s[1..], owner, group, name, payload, k - 1);
      var t := Upsert(s, owner, group, name, payload);
      var rest := Upsert(s[1..], owner, group, name, payload);
      assert forall i :: 1 <= i < |t| ==> t[i] == rest[i - 1];
      assert forall i :: 1 <= i < |s| ==> s[i] == s[1..][i - 1];
    }
  }

  /** A store unique within a scope stays so without its first row. */
  lemma UniqueInTail(s: Store, owner: Option<UserId>, group: string)
    requires |s| > 0 && UniqueIn(s, owner, group)
    ensures UniqueIn(s[1..], owner, group)
  {
    forall i, j | 0 <= i < j < |s[1..]| && InScope(s[1..][i], owner, group)
      ensures !SameKey(s[1..][i], s[1..][j])
    {
      assert s[1..][i] == s[i + 1] && s[1..][j] == s[j + 1];
    }
  }

  /** Uniqueness within every scope follows from global uniqueness, and
      within every owned scope from uniqueness of the owned rows. */
  lemma UniqueScopes(s: Store, owner: Option<UserId>, group: string)
    ensures Unique(s) ==> UniqueIn(s, owner, group)
    ensures UniqueOwned(s) && owner.Some? ==> UniqueIn(s, owner, group)
  {
  }

  /** Loading a store with one more row in front: the front row only shows
      when no later row has its name. */
  lemma {:induction false} LoadCons(r: Row, s: Store, owner: Option<UserId>, group: string)
    ensures Load([r] + s, owner, group) ==
      if InScope(r, owner, group) && r.name !in Load(s, owner, group)
      then Load(s, owner, group)[r.name := r]
      else Load(s, owner, group)
  {
    var rs := [r] + s;
    if |s| == 0 {
      assert rs[..0] == [];
    } else {
      var init := s[..|s| - 1];
      assert rs[..|rs| - 1] == [r] + init;
      assert rs[|rs| - 1] == s[|s| - 1];
      LoadCons(r, init, owner, group);
    }
  }

  /** Round trip of one write: on a store with one row per name in the
      written owner and group, loading after an upsert yields the old
      mapping with the written name bound to the new row. */
  lemma {:induction false} LoadAfterUpsert(s: Store, owner: Option<UserId>, group: string, name: string, payload: Value)
    requires UniqueIn(s, owner, group)
    ensures Load(Upsert(s, owner, group, name, payload), owner, group) ==
      Load(s, owner, group)[name := Row(owner, group, name, payload)]
  {
    var written := Row(owner, group, name, payload);
    if |s| == 0 {
      assert [written][..0] == [];
    } else if Matches(s[0], owner, group, name) {
      LoadAfterUpsertHit(s, owner, group, name, payload);
    } else {
      var rest := s[1..];
      assert s == [s[0]] + rest;
      UniqueInTail(s, owner, group);
      LoadAfterUpsert(rest, owner, group, name, payload);
      LoadCons(s[0], rest, owner, group);
      LoadCons(s[0], Upsert(rest, owner, group, name, payload), owner, group);
    }
  }

  /** The case of `LoadAfterUpsert` where the front row is the one rewritten. */
  lemma LoadAfterUpsertHit(s: Store, owner: Option<UserId>, group: string, name: string, payload: Value)
    requires UniqueIn(s, owner, group) && |s| > 0 && Matches(s[0], owner, group, name)
    ensures Load(Upsert(s, owner, group, name, payload), owner, group) ==
      Load(s, owner, group)[name := Row(owner, group, name, payload)]
  {
    var written := Row(owner, group, name, payload);
    var rest := s[1..];
    assert s == [s[0]] + rest;
    var t := Upsert(s, owner, group, name, payload);
    assert t == [written] + rest;
    forall i | 0 <= i < |rest|
      ensures !Matches(rest[i], owner, group, name)
    {
      assert rest[i] == s[i + 1] && !SameKey(s[0], s[i + 1]);
    }
    var m := Load(rest, owner, group);
    LoadKeys(rest, owner, group, name);
    assert name !in m;
    LoadCons(s[0], rest, owner, group);
    assert Load(s, owner, group) == m[name := s[0]];
    LoadCons(written, rest, owner, group);
    assert Load(t, owner, group) == m[name := written];
    assert m[name := s[0]][name := written] == m[name := written];
  }

  /** Isolation of one write: no other (owner, group) sees any change. */
  lemma {:induction false} LoadOtherScopeAfterUpsert(s: Store, owner: Option<UserId>, group: string, name: string, payload: Value,
                                                     otherOwner: Option<UserId>, otherGroup: string)
    requires otherOwner != owner || otherGroup != group
    ensures Load(Upsert(s, owner, group, name, payload), otherOwner, otherGroup) == Load(s, otherOwner, otherGroup)
  {
    var written := Row(owner, group, name, payload);
    if |s| == 0 {
      assert [written][..0] == [];
    } else {
      var rest := s[1..];
      assert s == [s[0]] + rest;
      LoadCons(s[0], rest, otherOwner, otherGroup);
      if Matches(s[0], owner, group, name) {
        LoadCons(s[0].(payload := payload), rest, otherOwner, otherGroup);
      } else {
        LoadOtherScopeAfterUpsert(rest, owner, group, name, payload, otherOwner, otherGroup);
        LoadCons(s[0], Upsert(rest, owner, group, name, payload), otherOwner, otherGroup);
      }
    }
  }

  /** An upsert keeps a unique store unique: it never adds a second row for
      a triple. */
  lemma UpsertPreservesUnique(s: Store, owner: Option<UserId>, group: string, name: string, payload: Value)
    requires Unique(s)
    ensures Unique(Upsert(s, owner, group, name, payload))
  {
    UpsertSpec(s, owner, group, name, payload);
    var t := Upsert(s, owner, group, name, payload);
    forall i, j | 0 <= i < j < |t|
      ensures !SameKey(t[i], t[j])
    {
      if j < |s| {
        assert !SameKey(s[i], s[j]);
      } else {
        assert !Matches(s[i], owner, group, name);
      }
    }
  }

  /** An upsert keeps every scope that had one row per name that way. */
  lemma UpsertPreservesUniqueIn(s: Store, owner: Option<UserId>, group: string, name: string, payload: Value,
                                scopeOwner: Option<UserId>, scopeGroup: string)
    requires UniqueIn(s, scopeOwner, scopeGroup)
    ensures UniqueIn(Upsert(s, owner, group, name, payload), scopeOwner, scopeGroup)
  {
    UpsertSpec(s, owner, group, name, payload);
    var t := Upsert(s, owner, group, name, payload);
    forall i, j | 0 <= i < j < |t| && InScope(t[i], scopeOwner, scopeGroup)
      ensures !SameKey(t[i], t[j])
    {
      if j < |s| {
        assert !SameKey(s[i], s[j]);
      } else {
        assert !Matches(s[i], owner, group, name);
      }
    }
  }

  /** An upsert keeps the owned rows unique, the invariant owner deletion
      maintains. */
  lemma UpsertPreservesUniqueOwned(s: Store, owner: Option<UserId>, group: string, name: string, payload: Value)
    requires UniqueOwned(s)
    ensures UniqueOwned(Upsert(s, owner, group, name, payload))
  {
    UpsertSpec(s, owner, group, name, payload);
    var t := Upsert(s, owner, group, name, payload);
    forall i, j | 0 <= i < j < |t| && t[i].owner.Some?
      ensures !SameKey(t[i], t[j])
    {
      if j < |s| {
        assert !SameKey(s[i], s[j]);
      } else {
        assert !Matches(s[i], owner, group, name);
      }
    }
  }

  /** A second write to the same triple replaces the first: the store is as
      if only the second had happened, so no duplicate row appears. */
  lemma {:induction false} UpsertOverwrites(s: Store, owner: Option<UserId>, group: string, name: string, p1: Value, p2: Value)
    ensures Upsert(Upsert(s, owner, group, name, p1), owner, group, name, p2) == Upsert(s, owner, group, name, p2)
  {
    if |s| > 0 && !Matches(s[0], owner, group, name) {
      UpsertOverwrites(s[1..], owner, group, name, p1, p2);
      var t := Upsert(s, owner, group, name, p1);
      assert t[1..] == Upsert(s[1..], owner, group, name, p1);
    }
  }

  /** An upsert changes nothing exactly when the first matching row already
      holds the payload. */
  lemma {:induction false} UpsertNoop(s: Store, owner: Option<UserId>, group: string, name: string, payload: Value)
    ensures Upsert(s, owner, group, name, payload) == s <==> FirstPayload(s, owner, group, name) == Some(payload)
  {
    if |s| > 0 && !Matches(s[0], owner, group, name) {
      UpsertNoop(s[1..], owner, group, name, payload);
      var t := Upsert(s, owner, group, name, payload);
      assert t[1..] == Upsert(s[1..], owner, group, name, payload);
      if t == s {
        assert t[1..] == s[1..];
      }
    }
  }

  /** A write to one triple leaves the row an upsert of any other triple
      would find untouched. */
  lemma {:induction false} FirstPayloadOtherAfterUpsert(s: Store, owner: Option<UserId>, group: string, name: string, payload: Value,
                                                        otherOwner: Option<UserId>, otherGroup: string, otherName: string)
    requires otherOwner != owner || otherGroup != group || otherName != name
    ensures FirstPayload(Upsert(s, owner, group, name, payload), otherOwner, otherGroup, otherName) ==
      FirstPayload(s, otherOwner, otherGroup, otherName)
  {
    if |s| > 0 {
      var t := Upsert(s, owner, group, name, payload);
      if Matches(s[0], owner, group, name) {
        assert t[1..] == s[1..];
      } else {
        FirstPayloadOtherAfterUpsert(s[1..], owner, group, name, payload, otherOwner, otherGroup, otherName);
        assert t[1..] == Upsert(s[1..], owner, group, name, payload);
      }
    }
  }

  /** Without uniqueness the round trip fails: with two rows for one triple
      `updateOrCreate` rewrites the first while `keyBy` reports the second,
      so the page reads back the old value. */
  lemma DuplicatesDefeatRoundTrip()
    ensures var row := Row(Some(1), "home_page", "status", Some(Json.JBool(false)));
      var s := [row, row];
      var t := Upsert(s, Some(1), "home_page", "status", Some(Json.JBool(true)));
      && !Unique(s)
      && Load(t, Some(1), "home_page")["status"].payload == Some(Json.JBool(false))
  {
    var row := Row(Some(1), "home_page", "status", Some(Json.JBool(false)));
    var s := [row, row];
    var t := Upsert(s, Some(1), "home_page", "status", Some(Json.JBool(true)));
    assert !SameKey(s[0], s[1]) == false;
    assert t == [row.(payload := Some(Json.JBool(true))), row];
    LoadLastWins(t, Some(1), "home_page", 1);
  }

  // ---------------------------------------------------------------------
  // A page's save loop: one upsert per field, in list order.

  /** The field names of a save list, in order. */
  function EntryNames(e: seq<Entry>): (ns: seq<string>)
    ensures |ns| == |e| && forall i :: 0 <= i < |e| ==> ns[i] == e[i].name
  {
    if |e| == 0 then [] else [e[0].name] + EntryNames(e[1..])
  }

  /** No field is listed twice. */
  predicate DistinctNames(e: seq<Entry>) {
    forall i, j :: 0 <= i < j < |e| ==> e[i].name != e[j].name
  }

  /** `foreach ($fields as $field) updateOrCreate(...)`. */
  function UpsertAll(s: Store, owner: Option<UserId>, group: string, e: seq<Entry>): Store
    decreases |e|
  {
    if |e| == 0 then s
    else UpsertAll(Upsert(s, owner, group, e[0].name, e[0].payload), owner, group, e[1..])
  }

  /** The mapping `Load` should see after the loop: each listed name bound
      to its new row, later entries winning, as successive writes would. */
  function Overlay(m: map<string, Row>, owner: Option<UserId>, group: string, e: seq<Entry>): map<string, Row>
    decreases |e|
  {
    if |e| == 0 then m
    else Overlay(m[e[0].name := Row(owner, group, e[0].name, e[0].payload)], owner, group, e[1..])
  }

  /** The loop touches only its own owner and group: old rows keep their
      key, rows of any other owner or group are unchanged, and every row it
      adds belongs to the owner and group and carries a listed name. */
  lemma {:induction false} UpsertAllSpec(s: Store, owner: Option<UserId>, group: string, e: seq<Entry>)
    ensures var t := UpsertAll(s, owner, group, e);
      && |s| <= |t|
      && (forall i :: 0 <= i < |s| ==> SameKey(t[i], s[i]))
      && (forall i :: 0 <= i < |s| && !InScope(s[i], owner, group) ==> t[i] == s[i])
      && (forall i :: |s| <= i < |t| ==> InScope(t[i], owner, group) && t[i].name in EntryNames(e))
    decreases |e|
  {
    if |e| > 0 {
      var s1 := Upsert(s, owner, group, e[0].name, e[0].payload);
      UpsertSpec(s, owner, group, e[0].name, e[0].payload);
      UpsertAllSpec(s1, owner, group, e[1..]);
      assert EntryNames(e) == [e[0].name] + EntryNames(e[1..]);
    }
  }

  lemma {:induction false} UpsertAllPreservesUnique(s: Store, owner: Option<UserId>, group: string, e: seq<Entry>)
    requires Unique(s)
    ensures Unique(UpsertAll(s, owner, group, e))
    decreases |e|
  {
    if |e| > 0 {
      UpsertPreservesUnique(s, owner, group, e[0].name, e[0].payload);
      UpsertAllPreservesUnique(Upsert(s, owner, group, e[0].name, e[0].payload), owner, group, e[1..]);
    }
  }

  /** A save loop keeps every scope with one row per name that way. */
  lemma {:induction false} UpsertAllPreservesUniqueIn(s: Store, owner: Option<UserId>, group: string, e: seq<Entry>,
                                                      scopeOwner: Option<UserId>, scopeGroup: string)
    requires UniqueIn(s, scopeOwner, scopeGroup)
    ensures UniqueIn(UpsertAll(s, owner, group, e), scopeOwner, scopeGroup)
    decreases |e|
  {
    if |e| > 0 {
      UpsertPreservesUniqueIn(s, owner, group, e[0].name, e[0].payload, scopeOwner, scopeGroup);
      UpsertAllPreservesUniqueIn(Upsert(s, owner, group, e[0].name, e[0].payload), owner, group, e[1..], scopeOwner, scopeGroup);
    }
  }

  /** A save loop keeps the owned rows unique. */
  lemma {:induction false} UpsertAllPreservesUniqueOwned(s: Store, owner: Option<UserId>, group: string, e: seq<Entry>)
    requires UniqueOwned(s)
    ensures UniqueOwned(UpsertAll(s, owner, group, e))
    decreases |e|
  {
    if |e| > 0 {
      UpsertPreservesUniqueOwned(s, owner, group, e[0].name, e[0].payload);
      UpsertAllPreservesUniqueOwned(Upsert(s, owner, group, e[0].name, e[0].payload), owner, group, e[1..]);
    }
  }

  /** Round trip of a whole save: on a store with one row per name in the
      written owner and group, loading that scope afterwards gives the old
      mapping overlaid with the saved rows. */
  lemma {:induction false} LoadAfterUpsertAll(s: Store, owner: Option<UserId>, group: string, e: seq<Entry>)
    requires UniqueIn(s, owner, group)
    ensures Load(UpsertAll(s, owner, group, e), owner, group) == Overlay(Load(s, owner, group), owner, group, e)
    decreases |e|
  {
    if |e| > 0 {
      var s1 := Upsert(s, owner, group, e[0].name, e[0].payload);
      LoadAfterUpsert(s, owner, group, e[0].name, e[0].payload);
      UpsertPreservesUniqueIn(s, owner, group, e[0].name, e[0].payload, owner, group);
      LoadAfterUpsertAll(s1, owner, group, e[1..]);
    }
  }

  /** Isolation of a whole save: no other (owner, group) sees any change. */
  lemma {:induction false} LoadOtherScopeAfterUpsertAll(s: Store, owner: Option<UserId>, group: string, e: seq<Entry>,
                                                        otherOwner: Option<UserId>, otherGroup: string)
    requires otherOwner != owner || otherGroup != group
    ensures Load(UpsertAll(s, owner, group, e), otherOwner, otherGroup) == Load(s, otherOwner, otherGroup)
    decreases |e|
  {
    if |e| > 0 {
      var s1 := Upsert(s, owner, group, e[0].name, e[0].payload);
      LoadOtherScopeAfterUpsert(s, owner, group, e[0].name, e[0].payload, otherOwner, otherGroup);
      LoadOtherScopeAfterUpsertAll(s1, owner, group, e[1..], otherOwner, otherGroup);
    }
  }

  /** Names the list does not mention keep their binding in the overlay. */
  lemma {:induction false} OverlayKeeps(m: map<string, Row>, owner: Option<UserId>, group: string, e: seq<Entry>, k: string)
    requires k !in EntryNames(e)
    ensures k in Overlay(m, owner, group, e) <==> k in m
    ensures k in m ==> Overlay(m, owner, group, e)[k] == m[k]
    decreases |e|
  {
    if |e| > 0 {
      assert EntryNames(e) == [e[0].name] + EntryNames(e[1..]);
      OverlayKeeps(m[e[0].name := Row(owner, group, e[0].name, e[0].payload)], owner, group, e[1..], k);
    }
  }

  /** With distinct names, each listed name ends up bound to its own entry. */
  lemma {:induction false} OverlayBinds(m: map<string, Row>, owner: Option<UserId>, group: string, e: seq<Entry>, i: nat)
    requires DistinctNames(e) && i < |e|
    ensures e[i].name in Overlay(m, owner, group, e)
    ensures Overlay(m, owner, group, e)[e[i].name] == Row(owner, group, e[i].name, e[i].payload)
    decreases |e|
  {
    var m1 := m[e[0].name := Row(owner, group, e[0].name, e[0].payload)];
    if i == 0 {
      OverlayKeeps(m1, owner, group, e[1..], e[0].name);
    } else {
      OverlayBinds(m1, owner, group, e[1..], i - 1);
    }
  }

  /** Triples the loop does not write, whether of another owner, another
      group or an unlisted name, keep the row their upsert would find. */
  lemma {:induction false} FirstPayloadOtherAfterUpsertAll(s: Store, owner: Option<UserId>, group: string, e: seq<Entry>,
                                                           otherOwner: Option<UserId>, otherGroup: string, k: string)
    requires otherOwner != owner || otherGroup != group || k !in EntryNames(e)
    ensures FirstPayload(UpsertAll(s, owner, group, e), otherOwner, otherGroup, k) == FirstPayload(s, otherOwner, otherGroup, k)
    decreases |e|
  {
    if |e| > 0 {
      assert EntryNames(e) == [e[0].name] + EntryNames(e[1..]);
      FirstPayloadOtherAfterUpsert(s, owner, group, e[0].name, e[0].payload, otherOwner, otherGroup, k);
      FirstPayloadOtherAfterUpsertAll(Upsert(s, owner, group, e[0].name, e[0].payload), owner, group, e[1..], otherOwner, otherGroup, k);
    }
  }

  /** After the loop, with distinct names, the row each upsert would find
      holds the value just saved for it. */
  lemma {:induction false} FirstPayloadAfterUpsertAll(s: Store, owner: Option<UserId>, group: string, e: seq<Entry>, i: nat)
    requires DistinctNames(e) && i < |e|
    ensures FirstPayload(UpsertAll(s, owner, group, e), owner, group, e[i].name) == Some(e[i].payload)
    decreases |e|
  {
    var s1 := Upsert(s, owner, group, e[0].name, e[0].payload);
    if i == 0 {
      UpsertSpec(s, owner, group, e[0].name, e[0].payload);
      assert e[0].name !in EntryNames(e[1..]);
      FirstPayloadOtherAfterUpsertAll(s1, owner, group, e[1..], owner, group, e[0].name);
    } else {
      FirstPayloadAfterUpsertAll(s1, owner, group, e[1..], i - 1);
    }
  }

  /** The loop is a no-op on a store that already holds every listed value. */
  lemma {:induction false} UpsertAllNoop(s: Store, owner: Option<UserId>, group: string, e: seq<Entry>)
    requires forall i :: 0 <= i < |e| ==> FirstPayload(s, owner, group, e[i].name) == Some(e[i].payload)
    ensures UpsertAll(s, owner, group, e) == s
    decreases |e|
  {
    if |e| > 0 {
      UpsertNoop(s, owner, group, e[0].name, e[0].payload);
      UpsertAllNoop(s, owner, group, e[1..]);
    }
  }

  /** Saving the same values twice leaves the same table as saving once. */
  lemma UpsertAllIdempotent(s: Store, owner: Option<UserId>, group: string, e: seq<Entry>)
    requires DistinctNames(e)
    ensures UpsertAll(UpsertAll(s, owner, group, e), owner, group, e) == UpsertAll(s, owner, group, e)
  {
    var t := UpsertAll(s, owner, group, e);
    forall i | 0 <= i < |e|
      ensures FirstPayload(t, owner, group, e[i].name) == Some(e[i].payload)
    {
      FirstPayloadAfterUpsertAll(s, owner, group, e, i);
    }
    UpsertAllNoop(t, owner, group, e);
  }

  // ---------------------------------------------------------------------
  // The foreign key on the owner column.

  /** `nullOnDelete`: deleting user `u` clears the owner of exactly `u`'s
      rows; no row is removed and no other column changes. */
  function DeleteOwner(s: Store, u: UserId): (t: Store)
    ensures |t| == |s|
    ensures forall i :: 0 <= i < |s| ==>
      t[i].group == s[i].group && t[i].name == s[i].name && t[i].payload == s[i].payload
    ensures forall i :: 0 <= i < |s| && s[i].owner == Some(u) ==> t[i].owner == None
    ensures forall i :: 0 <= i < |s| && s[i].owner != Some(u) ==> t[i] == s[i]
  {
    if |s| == 0 then []
    else
      var r := if s[0].owner == Some(u) then s[0].(owner := None) else s[0];
      var rest := DeleteOwner(s[1..], u);
      assert forall i :: 1 <= i < |s| ==> s[i] == s[1..][i - 1];
      [r] + rest
  }

  /** `cascadeOnUpdate`: changing user `u`'s key to `v` moves exactly `u`'s
      rows to `v`. */
  function RekeyOwner(s: Store, u: UserId, v: UserId): (t: Store)
    ensures |t| == |s|
    ensures forall i :: 0 <= i < |s| ==>
      t[i].group == s[i].group && t[i].name == s[i].name && t[i].payload == s[i].payload
    ensures forall i :: 0 <= i < |s| && s[i].owner == Some(u) ==> t[i].owner == Some(v)
    ensures forall i :: 0 <= i < |s| && s[i].owner != Some(u) ==> t[i] == s[i]
  {
    if |s| == 0 then []
    else
      var r := if s[0].owner == Some(u) then s[0].(owner := Some(v)) else s[0];
      var rest := RekeyOwner(s[1..], u, v);
      assert forall i :: 1 <= i < |s| ==> s[i] == s[1..][i - 1];
      [r] + rest
  }

  /** After `u` is deleted no authenticated page of `u` finds a row, and
      every other user's pages load exactly what they loaded before. */
  lemma {:induction false} LoadAfterDeleteOwner(s: Store, u: UserId, other: UserId, group: string)
    requires other != u
    ensures Load(DeleteOwner(s, u), Some(u), group) == map[]
    ensures Load(DeleteOwner(s, u), Some(other), group) == Load(s, Some(other), group)
  {
    if |s| > 0 {
      var t := DeleteOwner(s, u);
      var init := s[..|s| - 1];
      var ti := DeleteOwner(init, u);
      forall i | 0 <= i < |init|
        ensures t[i] == ti[i]
      {
        assert init[i] == s[i];
      }
      assert t[..|t| - 1] == ti;
      LoadAfterDeleteOwner(init, u, other, group);
    }
  }

  /** Deleting an owner keeps rows that still have an owner unique. */
  lemma DeleteOwnerPreservesUniqueOwned(s: Store, u: UserId)
    requires UniqueOwned(s)
    ensures UniqueOwned(DeleteOwner(s, u))
  {
    var t := DeleteOwner(s, u);
    forall i, j | 0 <= i < j < |t| && t[i].owner.Some?
      ensures !SameKey(t[i], t[j])
    {
      assert t[i] == s[i];
      if t[j] == s[j] {
        assert !SameKey(s[i], s[j]);
      }
    }
  }

  /** With no index on (owner, group, name), deleting owners can leave two
      ownerless rows for the same group and name: a unique table stops being
      unique. */
  lemma DeleteOwnerCanBreakUnique()
    ensures var s := [Row(Some(1), "home_page", "status", None), Row(Some(2), "home_page", "status", None)];
      && Unique(s)
      && !Unique(DeleteOwner(DeleteOwner(s, 1), 2))
  {
    var s := [Row(Some(1), "home_page", "status", None), Row(Some(2), "home_page", "status", None)];
    var t := DeleteOwner(DeleteOwner(s, 1), 2);
    assert SameKey(t[0], t[1]);
  }

  /** Moving `u`'s rows to a key no row uses keeps the table unique. */
  lemma RekeyOwnerPreservesUnique(s: Store, u: UserId, v: UserId)
    requires Unique(s)
    requires forall i :: 0 <= i < |s| ==> s[i].owner != Some(v)
    ensures Unique(RekeyOwner(s, u, v))
  {
    var t := RekeyOwner(s, u, v);
    forall i, j | 0 <= i < j < |t|
      ensures !SameKey(t[i], t[j])
    {
      assert !SameKey(s[i], s[j]);
    }
  }

  /** Moving `u`'s rows to a key no row uses keeps the owned rows unique,
      the invariant that survives owner deletion. */
  lemma RekeyOwnerPreservesUniqueOwned(s: Store, u: UserId, v: UserId)
    requires UniqueOwned(s)
    requires forall i :: 0 <= i < |s| ==> s[i].owner != Some(v)
    ensures UniqueOwned(RekeyOwner(s, u, v))
  {
    var t := RekeyOwner(s, u, v);
    forall i, j | 0 <= i < j < |t| && t[i].owner.Some?
      ensures !SameKey(t[i], t[j])
    {
      assert s[i].owner.Some? && !SameKey(s[i], s[j]);
    }
  }

  /** After the move, the new key's rows in a group have one row per name
      whenever the old key's rows had. */
  lemma RekeyOwnerMovesUniqueIn(s: Store, u: UserId, v: UserId, group: string)
    requires UniqueIn(s, Some(u), group)
    requires forall i :: 0 <= i < |s| ==> s[i].owner != Some(v)
    ensures UniqueIn(RekeyOwner(s, u, v), Some(v), group)
  {
    var t := RekeyOwner(s, u, v);
    forall i, j | 0 <= i < j < |t| && InScope(t[i], Some(v), group)
      ensures !SameKey(t[i], t[j])
    {
      assert InScope(s[i], Some(u), group) && !SameKey(s[i], s[j]);
    }
  }
}
