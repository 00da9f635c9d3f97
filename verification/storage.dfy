/** The extension's persisted state (`storage.js`): two key-value areas,
    `local` and the optional `sync`, each holding a shortcut list and a
    settings object; the choice of the preferred area; loading with defaults;
    saving; and seeding the defaults on install. */
module Storage {
  import opened Wrappers
  import opened Text
  import opened Shortcuts
  import opened TemplateResolver

  /** A JSON value as far as the settings use it. */
  datatype Value = Flag(b: bool) | Text(s: string) | Number(n: int) | Null

  /** JavaScript truthiness (`Boolean(v)`, `v || …`); `NaN` is not modelled. */
  predicate Truthy(v: Value)
    ensures Truthy(v) <==> v !in [Flag(false), Text(""), Number(0), Null]
  {
    match v
    case Flag(b) => b
    case Text(s) => s != ""
    case Number(n) => n != 0
    case Null => false
  }

  /** A settings object: its own enumerable keys and their values. */
  type Settings = map<string, Value>

  const AutoExpandKey: string := "autoExpandOnSpace"
  const AutoFocusKey: string := "autoFocusAiInput"
  const AutoSendKey: string := "autoSend"
  const StorageAreaKey: string := "storageArea"

  /** `DEFAULT_SETTINGS`, declared identically in `storage.js` and
      `content_script.js`. */
  const DefaultSettings: Settings := map[
    AutoExpandKey := Flag(false),
    AutoFocusKey := Flag(true),
    AutoSendKey := Flag(false),
    StorageAreaKey := Text("sync")
  ]

  /** `{ ...base, ...over }` with `over` possibly `undefined`: the keys of
      both, with `over`'s value winning. */
  function Spread(base: Settings, over: Option<Settings>): (r: Settings)
    ensures r.Keys == base.Keys + (if over.Some? then over.value.Keys else {})
    ensures forall k :: k in r ==> r[k] == (if over.Some? && k in over.value then over.value[k] else base[k])
  {
    base + over.GetOr(map[])
  }

  /** The contents of one area: `None` for a key that was never set. */
  datatype Store = Store(shortcuts: Option<seq<Shortcut>>, settings: Option<Settings>)

  /** Both areas; `sync` is `None` when `chrome.storage.sync` is unavailable. */
  datatype Stores = Stores(local: Store, sync: Option<Store>)

  datatype AreaName = Local | Sync

  /** The area a name selects exists. */
  predicate Available(stores: Stores, area: AreaName) {
    area == Sync ==> stores.sync.Some?
  }

  function AreaOf(stores: Stores, area: AreaName): Store
    requires Available(stores, area)
  {
    if area == Local then stores.local else stores.sync.value
  }

  /** `getStorageAreaByName(name)`: exactly the value `"local"` selects
      `local`; anything else selects `sync`, or `local` when there is no
      `sync`. */
  function AreaByName(stores: Stores, name: Value): (a: AreaName)
    ensures Available(stores, a)
    ensures a == Local <==> name == Text("local") || stores.sync.None?
  {
    if name == Text("local") then Local
    else if stores.sync.Some? then Sync else Local
  }

  /** `settings?.storageArea` of an area that may be missing, may have no
      settings, or may have no such key. */
  function StoredPreference(store: Option<Store>): Option<Value> {
    if store.Some? && store.value.settings.Some? && StorageAreaKey in store.value.settings.value
    then Some(store.value.settings.value[StorageAreaKey])
    else None
  }

  predicate TruthyPreference(v: Option<Value>) {
    v.Some? && Truthy(v.value)
  }

  /** The value the cascade in `resolvePreferredStorageArea` settles on: the
      first truthy one of local's preference, sync's preference, and the
      name of the best area available. */
  function PreferredName(stores: Stores): (v: Value)
    ensures TruthyPreference(StoredPreference(Some(stores.local))) ==>
      v == StoredPreference(Some(stores.local)).value
    ensures (!TruthyPreference(StoredPreference(Some(stores.local)))
             && TruthyPreference(StoredPreference(stores.sync))) ==> v == StoredPreference(stores.sync).value
    ensures (!TruthyPreference(StoredPreference(Some(stores.local)))
             && !TruthyPreference(StoredPreference(stores.sync))) ==>
      v == Text(if stores.sync.Some? then "sync" else "local")
    ensures Truthy(v)
    ensures || StoredPreference(Some(stores.local)) == Some(v)
            || StoredPreference(stores.sync) == Some(v)
            || (v == Text("sync") && stores.sync.Some?)
            || v == Text("local")
  {
    var localPref := StoredPreference(Some(stores.local));
    var syncPref := StoredPreference(stores.sync);
    if TruthyPreference(localPref) then localPref.value
    else if TruthyPreference(syncPref) then syncPref.value
    else Text(if stores.sync.Some? then "sync" else "local")
  }

  /** A truthy preference stored in `local` is never overridden: what `sync`
      holds, and whether it exists at all, makes no difference. */
  lemma LocalPreferenceWins(stores: Stores, sync: Option<Store>)
    requires TruthyPreference(StoredPreference(Some(stores.local)))
    ensures PreferredName(stores.(sync := sync)) == PreferredName(stores)
  {
  }

  /** `resolvePreferredStorageArea()`. */
  function PreferredArea(stores: Stores): (a: AreaName)
    ensures Available(stores, a)
  {
    AreaByName(stores, PreferredName(stores))
  }

  /** `sync` is used unless some stored preference asks for `local` first,
      or there is no `sync`. */
  lemma PreferredAreaCases(stores: Stores)
    ensures PreferredArea(stores) == Local <==>
      || stores.sync.None?
      || StoredPreference(Some(stores.local)) == Some(Text("local"))
      || (!TruthyPreference(StoredPreference(Some(stores.local)))
          && StoredPreference(stores.sync) == Some(Text("local")))
  {
  }

  /** What `loadData()` returns. */
  datatype Loaded = Loaded(shortcuts: seq<Shortcut>, settings: Settings)

  /** `loadData()`: the preferred area's shortcuts, or the defaults when it
      has none or an empty list; its settings spread over the defaults. */
  function LoadData(stores: Stores): (r: Loaded)
    ensures |r.shortcuts| > 0
    ensures DefaultSettings.Keys <= r.settings.Keys
    ensures var store := AreaOf(stores, PreferredArea(stores));
      && (store.shortcuts.Some? && |store.shortcuts.value| > 0 ==> r.shortcuts == store.shortcuts.value)
      && (store.shortcuts.None? || store.shortcuts.value == [] ==> r.shortcuts == DefaultShortcuts)
      && (store.settings.Some? ==> forall k :: k in store.settings.value ==> k in r.settings && r.settings[k] == store.settings.value[k])
      && (forall k :: k in r.settings && (store.settings.None? || k !in store.settings.value) ==>
            k in DefaultSettings && r.settings[k] == DefaultSettings[k])
  {
    var store := AreaOf(stores, PreferredArea(stores));
    var shortcuts := if store.shortcuts.Some? && |store.shortcuts.value| > 0
                     then store.shortcuts.value else DefaultShortcuts;
    Loaded(shortcuts, Spread(DefaultSettings, store.settings))
  }

  function WithShortcuts(store: Store, list: seq<Shortcut>): Store {
    store.(shortcuts := Some(list))
  }

  /** `saveShortcuts(shortcuts)`: the list is written to the preferred area. */
  function SaveShortcuts(stores: Stores, list: seq<Shortcut>): (r: Stores)
    ensures r.sync.Some? <==> stores.sync.Some?
    ensures AreaOf(r, PreferredArea(stores)).shortcuts == Some(list)
    ensures PreferredArea(stores) == Sync ==> r.local == stores.local
    ensures PreferredArea(stores) == Local ==> r.sync == stores.sync
    ensures r.local.settings == stores.local.settings
    ensures stores.sync.Some? ==> r.sync.value.settings == stores.sync.value.settings
  {
    if PreferredArea(stores) == Local then stores.(local := WithShortcuts(stores.local, list))
    else stores.(sync := Some(WithShortcuts(stores.sync.value, list)))
  }

  /** Saving shortcuts leaves the settings, hence the preferred area, alone. */
  lemma SaveShortcutsKeepsArea(stores: Stores, list: seq<Shortcut>)
    ensures PreferredArea(SaveShortcuts(stores, list)) == PreferredArea(stores)
  {
    var r := SaveShortcuts(stores, list);
    assert StoredPreference(Some(r.local)) == StoredPreference(Some(stores.local));
    assert StoredPreference(r.sync) == StoredPreference(stores.sync);
  }

  /** A non-empty list that is saved is the list loaded. */
  lemma SaveThenLoadShortcuts(stores: Stores, list: seq<Shortcut>)
    requires |list| > 0
    ensures LoadData(SaveShortcuts(stores, list)).shortcuts == list
    ensures LoadData(SaveShortcuts(stores, list)).settings == LoadData(stores).settings
  {
    SaveShortcutsKeepsArea(stores, list);
  }

  /** Saving an empty list brings the defaults back on the next load. */
  lemma SaveEmptyLoadsDefaults(stores: Stores)
    ensures LoadData(SaveShortcuts(stores, [])).shortcuts == DefaultShortcuts
  {
    SaveShortcutsKeepsArea(stores, []);
  }

  function WithSettings(store: Store, settings: Settings): Store {
    store.(settings := Some(settings))
  }

  /** `saveSettings(settings)`: the settings spread over the defaults are
      written to `local` and, when it exists, to `sync`. */
  function SaveSettings(stores: Stores, settings: Settings): (r: Stores)
    ensures r.sync.Some? <==> stores.sync.Some?
    ensures r.local.shortcuts == stores.local.shortcuts
    ensures stores.sync.Some? ==> r.sync.value.shortcuts == stores.sync.value.shortcuts
    ensures r.local.settings.Some? && (r.sync.Some? ==> r.sync.value.settings == r.local.settings)
    ensures DefaultSettings.Keys <= r.local.settings.value.Keys
    ensures forall k :: k in settings ==> k in r.local.settings.value && r.local.settings.value[k] == settings[k]
  {
    var merged := Spread(DefaultSettings, Some(settings));
    Stores(WithSettings(stores.local, merged),
           if stores.sync.Some? then Some(WithSettings(stores.sync.value, merged)) else None)
  }

  /** Saved settings come back from the next load, over the defaults. */
  lemma SaveThenLoadSettings(stores: Stores, settings: Settings)
    ensures LoadData(SaveSettings(stores, settings)).settings == DefaultSettings + settings
  {
    var r := SaveSettings(stores, settings);
    var merged := DefaultSettings + settings;
    assert AreaOf(r, PreferredArea(r)).settings == Some(merged);
    assert DefaultSettings + merged == merged;
  }

  /** After saving, the saved `storageArea` decides the area: `"local"`
      selects `local`, and anything else leaves `sync` in use when it exists. */
  lemma SaveSettingsSelectsArea(stores: Stores, settings: Settings)
    ensures var r := SaveSettings(stores, settings);
      var name := (DefaultSettings + settings)[StorageAreaKey];
      PreferredArea(r) == Local <==> name == Text("local") || stores.sync.None?
  {
    var r := SaveSettings(stores, settings);
    var merged := DefaultSettings + settings;
    assert StoredPreference(Some(r.local)) == Some(merged[StorageAreaKey]);
    if stores.sync.Some? {
      assert StoredPreference(r.sync) == Some(merged[StorageAreaKey]);
    }
  }

  /** `ensureDefaults()`: in the preferred area, a missing or empty shortcut
      list becomes the default list and missing settings become the default
      settings; nothing is written when neither is missing. */
  function EnsureDefaults(stores: Stores): (r: Stores)
    ensures r.sync.Some? <==> stores.sync.Some?
    ensures var area := PreferredArea(stores); var before, after := AreaOf(stores, area), AreaOf(r, area);
      && after.shortcuts.Some? && |after.shortcuts.value| > 0
      && after.settings.Some?
      && (before.shortcuts.Some? && |before.shortcuts.value| > 0 ==> after.shortcuts == before.shortcuts)
      && (before.shortcuts.None? || before.shortcuts.value == [] ==> after.shortcuts == Some(DefaultShortcuts))
      && (before.settings.Some? ==> after.settings == before.settings)
      && (before.settings.None? ==> after.settings == Some(DefaultSettings))
    ensures PreferredArea(stores) == Sync ==> r.local == stores.local
    ensures PreferredArea(stores) == Local ==> r.sync == stores.sync
  {
    var area := PreferredArea(stores);
    var store := AreaOf(stores, area);
    var shortcuts := if store.shortcuts.None? || |store.shortcuts.value| == 0
                     then Some(DefaultShortcuts) else store.shortcuts;
    var settings := if store.settings.None? then Some(DefaultSettings) else store.settings;
    var updated := Store(shortcuts, settings);
    if area == Local then stores.(local := updated) else stores.(sync := Some(updated))
  }

  /** Seeding the defaults changes nothing a load sees, as long as the
      preferred area stays the same. */
  lemma EnsureDefaultsKeepsLoad(stores: Stores)
    requires PreferredArea(EnsureDefaults(stores)) == PreferredArea(stores)
    ensures LoadData(EnsureDefaults(stores)) == LoadData(stores)
  {
    var store := AreaOf(stores, PreferredArea(stores));
    if store.settings.None? {
      assert DefaultSettings + DefaultSettings == DefaultSettings + map[];
    }
  }

  /** A second call writes nothing new, as long as the first kept the
      preferred area. */
  lemma EnsureDefaultsIdempotent(stores: Stores)
    requires PreferredArea(EnsureDefaults(stores)) == PreferredArea(stores)
    ensures EnsureDefaults(EnsureDefaults(stores)) == EnsureDefaults(stores)
  {
  }

  /** The preferred area moves when `sync` asks for `local` and `local` has
      no settings: the defaults written to `local` carry `storageArea: "sync"`,
      which now comes first in the cascade. */
  lemma ExampleEnsureDefaultsMovesPreference()
    ensures var stores := Stores(Store(None, None),
                                 Some(Store(None, Some(map[StorageAreaKey := Text("local")]))));
      && PreferredArea(stores) == Local
      && PreferredArea(EnsureDefaults(stores)) == Sync
  {
    var stores := Stores(Store(None, None), Some(Store(None, Some(map[StorageAreaKey := Text("local")]))));
    assert StoredPreference(stores.sync) == Some(Text("local"));
    var r := EnsureDefaults(stores);
    assert r.local.settings == Some(DefaultSettings);
    assert StoredPreference(Some(r.local)) == Some(Text("sync"));
  }

  /** A `#` followed by lower-case ASCII letters only. */
  predicate IsHashWord(s: string) {
    |s| > 1 && s[0] == '#' && forall j :: 1 <= j < |s| ==> 'a' <= s[j] <= 'z'
  }

  /** One default shortcut: its instruction, a blank line, then a labelled
      slot that takes the selection with the caret after it. */
  function Preset(name: string, instruction: string, slot: string, tags: seq<string>, favorite: bool): (s: Shortcut)
    ensures s.name == name && s.tags == tags && s.favorite == favorite
    ensures EndsWith(s.template, SelectionMarker + CursorMarker)
  {
    var tail := SelectionMarker + CursorMarker;
    var template := instruction + "\n\n" + slot + ": " + tail;
    assert template[|template| - |tail|..] == tail;
    Shortcut(name, template, tags, favorite)
  }

  /** `DEFAULT_SHORTCUTS`. Every template in the source has the shape
      `<instruction>\n\n<Label>: {selection}{cursor}`; `Preset` spells it out. */
  const DefaultShortcuts: seq<Shortcut> := [
    Preset("#investigate",
      "Investigate the topic below thoroughly. Provide sources, key findings, and open questions.",
      "Topic", ["research"], true),
    Preset("#deconstruct",
      "Deconstruct the following claim into assumptions, evidence, and potential flaws.",
      "Claim", ["analysis"], false),
    Preset("#summarise",
      "Summarise the following in 5 bullet points. Include key takeaways.",
      "Text", ["summary"], false),
    Preset("#counter",
      "Provide the strongest counter-argument to the following position.",
      "Position", ["debate"], false),
    Preset("#execute",
      "Turn this into a concrete action plan with steps, owners, and timelines.",
      "Goal", ["planning"], false),
    Preset("#premortem",
      "Run a premortem. Assume the project failed and list the likely causes and mitigations.",
      "Project", ["risk"], false),
    Preset("#simplify",
      "Simplify the following explanation for a beginner audience.",
      "Text", ["rewrite"], false),
    Preset("#brainstorm",
      "Brainstorm 10 creative ideas for the following prompt.",
      "Prompt", ["ideation"], false),
    Preset("#rewrite",
      "Rewrite the following text in a clearer, more concise style.",
      "Text", ["rewrite"], false),
    Preset("#critique",
      "Critique the following output for accuracy, clarity, and completeness.",
      "Output", ["review"], false)
  ]

  /** The default shortcuts have distinct names. */
  lemma DefaultNamesDistinct()
    ensures |DefaultShortcuts| == 10
    ensures DistinctNames(DefaultShortcuts)
  {
    var d := DefaultShortcuts;
    forall i, j | 0 <= i < j < |d| ensures d[i].name != d[j].name {
      if (i, j) == (2, 6) {
        assert d[i].name[2] != d[j].name[2];
      } else if (i, j) == (3, 9) {
        assert d[i].name[2] != d[j].name[2];
      } else {
        assert d[i].name[1] != d[j].name[1];
      }
    }
  }
}
