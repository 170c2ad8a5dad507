/** The settings record of the mock data service: read it, assign the
    fields a request supplies, or put back the defaults. */
module Settings {
  import opened Common
  import opened Collections

  /** The body of an update: `Some` marks a field the client supplied. */
  datatype SettingsUpdate = SettingsUpdate(
    themeMode: Option<string>,
    primaryColor: Option<string>,
    secondaryColor: Option<string>,
    language: Option<string>,
    timezone: Option<string>,
    notificationsEnabled: Option<bool>,
    emailNotifications: Option<bool>,
    pushNotifications: Option<bool>,
    autoSave: Option<bool>,
    compactMode: Option<bool>)

  function StrField(v: Option<string>): Option<Value> {
    if v.Some? then Some(Str(v.value)) else None
  }

  function BoolField(v: Option<bool>): Option<Value> {
    if v.Some? then Some(Bool(v.value)) else None
  }

  /** The keys of the update model in declaration order; `id` is not one of them. */
  const FieldKeys: seq<string> := [
    "theme_mode", "primary_color", "secondary_color", "language", "timezone",
    "notifications_enabled", "email_notifications", "push_notifications",
    "auto_save", "compact_mode"
  ]

  /** Each field of an update under its key, `None` where it was not supplied. */
  function Fields(u: SettingsUpdate): (fs: seq<(string, Option<Value>)>)
    ensures |fs| == |FieldKeys|
    ensures forall i :: 0 <= i < |fs| ==> fs[i].0 == FieldKeys[i]
  {
    [("theme_mode", StrField(u.themeMode)), ("primary_color", StrField(u.primaryColor)),
     ("secondary_color", StrField(u.secondaryColor)), ("language", StrField(u.language)),
     ("timezone", StrField(u.timezone)), ("notifications_enabled", BoolField(u.notificationsEnabled)),
     ("email_notifications", BoolField(u.emailNotifications)), ("push_notifications", BoolField(u.pushNotifications)),
     ("auto_save", BoolField(u.autoSave)), ("compact_mode", BoolField(u.compactMode))]
  }

  /** The supplied fields only: `dict(exclude_unset=True).items()`. */
  function SetItems(fs: seq<(string, Option<Value>)>): (r: seq<(string, Value)>)
    ensures |r| <= |fs|
    decreases |fs|
  {
    if fs == [] then []
    else
      var (k, v) := fs[|fs| - 1];
      var init := SetItems(fs[..|fs| - 1]);
      if v.Some? then init + [(k, v.value)] else init
  }

  function Items(u: SettingsUpdate): seq<(string, Value)> {
    SetItems(Fields(u))
  }

  predicate DistinctNames(fs: seq<(string, Option<Value>)>) {
    forall i, j :: 0 <= i < j < |fs| ==> fs[i].0 != fs[j].0
  }

  /** The items name exactly the supplied keys, and when no key repeats each
      one carries the value supplied for it. */
  lemma {:induction false} SetItemsSpec(fs: seq<(string, Option<Value>)>)
    ensures ItemKeys(SetItems(fs)) == set i | 0 <= i < |fs| && fs[i].1.Some? :: fs[i].0
    ensures SetItems(fs) == [] <==> forall i :: 0 <= i < |fs| ==> fs[i].1.None?
    ensures DistinctNames(fs) ==> forall i :: 0 <= i < |fs| && fs[i].1.Some? ==>
              fs[i].0 in ItemKeys(SetItems(fs)) && LastValue(SetItems(fs), fs[i].0) == fs[i].1.value
    decreases |fs|
  {
    if fs != [] {
      var init := fs[..|fs| - 1];
      var (k, v) := fs[|fs| - 1];
      SetItemsSpec(init);
      var r := SetItems(fs);
      var ri := SetItems(init);
      if v.Some? {
        assert r == ri + [(k, v.value)];
        assert ItemKeys(r) == ItemKeys(ri) + {k} by {
          forall key | key in ItemKeys(r) ensures key in ItemKeys(ri) + {k} {
            var m :| 0 <= m < |r| && r[m].0 == key;
            if m < |ri| { assert r[m] == ri[m]; }
          }
          assert r[|r| - 1].0 == k;
          forall key | key in ItemKeys(ri) ensures key in ItemKeys(r) {
            var m :| 0 <= m < |ri| && ri[m].0 == key;
            assert r[m] == ri[m];
          }
        }
      }
      assert forall i :: 0 <= i < |init| ==> init[i] == fs[i];
      if DistinctNames(fs) {
        assert DistinctNames(init);
        forall i | 0 <= i < |fs| && fs[i].1.Some?
          ensures fs[i].0 in ItemKeys(r) && LastValue(r, fs[i].0) == fs[i].1.value
        {
          if i < |fs| - 1 {
            assert fs[i].0 != k;
            if v.Some? {
              assert r[..|r| - 1] == ri;
            }
          }
        }
      }
    }
  }

  /** No two fields of an update share a key, and none is `id`. */
  lemma FieldNames(u: SettingsUpdate)
    ensures DistinctNames(Fields(u))
    ensures forall i :: 0 <= i < |Fields(u)| ==> Fields(u)[i].0 != "id"
  {
    var fs := Fields(u);
    forall i, j | 0 <= i < j < |fs| ensures fs[i].0 != fs[j].0 {
      assert fs[i].0 == FieldKeys[i] && fs[j].0 == FieldKeys[j];
    }
  }

  /** An update changes only the keys it supplies, each to the supplied value;
      `id` and every other key keep their values. */
  lemma UpdateSpec(d: Dict, u: SettingsUpdate)
    ensures "id" !in ItemKeys(Items(u))
    ensures forall k :: k in d && k !in ItemKeys(Items(u)) ==> k in Assign(d, Items(u)) && Assign(d, Items(u))[k] == d[k]
    ensures forall i :: 0 <= i < |FieldKeys| && Fields(u)[i].1.Some? ==>
              FieldKeys[i] in Assign(d, Items(u)) && Assign(d, Items(u))[FieldKeys[i]] == Fields(u)[i].1.value
  {
    var fs := Fields(u);
    FieldNames(u);
    SetItemsSpec(fs);
    AssignSpec(d, Items(u));
  }

  /** An update that supplies nothing leaves the record identical. */
  lemma EmptyUpdateIsIdentity(d: Dict)
    ensures Assign(d, Items(SettingsUpdate(None, None, None, None, None, None, None, None, None, None))) == d
  {
    SetItemsSpec(Fields(SettingsUpdate(None, None, None, None, None, None, None, None, None, None)));
  }

  /** The record `reset_settings` puts back (also the service's initial one). */
  function Defaults(): (d: Dict)
    ensures forall i :: 0 <= i < |FieldKeys| ==> FieldKeys[i] in d
    ensures "id" in d && d["id"] == Int(1)
  {
    map[
      "id" := Int(1),
      "theme_mode" := Str("light"),
      "primary_color" := Str("#61dafb"),
      "secondary_color" := Str("#ff6b6b"),
      "language" := Str("en"),
      "timezone" := Str("UTC"),
      "notifications_enabled" := Bool(true),
      "email_notifications" := Bool(true),
      "push_notifications" := Bool(false),
      "auto_save" := Bool(true),
      "compact_mode" := Bool(false)
    ]
  }

  /** The settings record, `settings_db`. */
  class SettingsStore {
    var settings: Dict

    constructor()
      ensures settings == Defaults()
    {
      settings := Defaults();
    }

    /** `get_settings` */
    function Get(): (r: Dict)
      reads this
      ensures r == settings
    {
      settings
    }

    /** `update_settings`: assigns each supplied field in turn. */
    method Update(u: SettingsUpdate) returns (r: Dict)
      modifies this
      ensures settings == Assign(old(settings), Items(u)) && r == settings
      ensures forall k :: k in old(settings) && k !in ItemKeys(Items(u)) ==> k in settings && settings[k] == old(settings)[k]
    {
      var items := Items(u);
      for j := 0 to |items|
        invariant settings == Assign(old(settings), items[..j])
      {
        assert items[..j + 1][..j] == items[..j];
        settings := settings[items[j].0 := items[j].1];
      }
      assert items[..|items|] == items;
      AssignSpec(old(settings), items);
      r := settings;
    }

    /** `reset_settings`: the defaults, whatever the record held before;
        resetting twice therefore equals resetting once. */
    method Reset() returns (r: Dict)
      modifies this
      ensures settings == Defaults() && r == settings
      ensures settings["id"] == Int(1)
    {
      settings := Defaults();
      r := settings;
    }
  }
}
