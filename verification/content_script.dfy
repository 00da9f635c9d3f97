/** The page-side decisions of `content_script.js` that are not about text
    insertion: which elements count as editable, the settings cache and its
    updates, and when a key press triggers auto-expansion. */
module ContentScript {
  import opened Wrappers
  import opened Text
  import opened Storage
  import opened Shortcuts
  import opened TokenLocator
  import opened TemplateResolver

  /** The parts of a DOM element `isEditableElement` looks at; `tagName` and
      `inputType` are `None` when the element has no such property. */
  datatype Element = Element(isContentEditable: bool, tagName: Option<string>, inputType: Option<string>)

  /** The `input` types that take free text. */
  const TextInputTypes: seq<string> := ["text", "search", "url", "email", "tel"]

  /** `isEditableElement(element)`; `None` is a missing element. */
  function IsEditableElement(element: Option<Element>): (r: bool)
    ensures element.None? ==> !r
    ensures element.Some? && element.value.isContentEditable ==> r
    ensures r && !element.value.isContentEditable ==>
      element.value.tagName.Some? && Lower(element.value.tagName.value) in ["textarea", "input"]
    ensures element.Some? && element.value.tagName.None? ==> (r <==> element.value.isContentEditable)
    ensures element.Some? && !element.value.isContentEditable && element.value.tagName.Some? ==>
      (r <==> Lower(element.value.tagName.value) == "textarea"
              || (Lower(element.value.tagName.value) == "input" && element.value.inputType.Some?
                  && Lower(element.value.inputType.value) in TextInputTypes))
  {
    if element.None? then false
    else
      var e := element.value;
      if e.isContentEditable then true
      else if e.tagName.None? then false
      else
        var tag := Lower(e.tagName.value);
        if tag == "textarea" then true
        else if tag == "input" then
          e.inputType.Some? && Lower(e.inputType.value) in TextInputTypes
        else false
  }

  /** Tag names and input types are compared without regard to ASCII case. */
  lemma EditableIgnoresCase(e: Element)
    ensures var lowered := e.(tagName := if e.tagName.Some? then Some(Lower(e.tagName.value)) else None,
                              inputType := if e.inputType.Some? then Some(Lower(e.inputType.value)) else None);
      IsEditableElement(Some(e)) == IsEditableElement(Some(lowered))
  {
    if e.tagName.Some? {
      LowerFacts(e.tagName.value);
    }
    if e.inputType.Some? {
      LowerFacts(e.inputType.value);
    }
  }

  /** An `<INPUT>` of type `Email` is editable; one whose `type` property is
      absent, or of type `checkbox`, is not. (A real `<input>` without a
      `type` attribute reports `"text"`, which is editable.) */
  lemma ExampleInputs()
    ensures IsEditableElement(Some(Element(false, Some("INPUT"), Some("Email"))))
    ensures !IsEditableElement(Some(Element(false, Some("input"), None)))
    ensures !IsEditableElement(Some(Element(false, Some("input"), Some("checkbox"))))
  {
    assert Lower("INPUT") == "input";
    assert Lower("Email") == "email";
    assert Lower("input") == "input";
    assert Lower("checkbox") == "checkbox";
    assert "checkbox" != "text" && "checkbox" != "search" && "checkbox" != "url";
    assert "checkbox" != "email" && "checkbox" != "tel";
  }

  /** `loadSettings()`: sync's settings over the defaults, then local's over
      those. An unavailable `sync` contributes nothing. */
  function LoadSettings(stores: Stores): (r: Settings)
    ensures DefaultSettings.Keys <= r.Keys
    ensures stores.local.settings.Some? ==> stores.local.settings.value.Keys <= r.Keys
    ensures stores.sync.Some? && stores.sync.value.settings.Some? ==> stores.sync.value.settings.value.Keys <= r.Keys
    ensures forall k :: k in r ==>
      if stores.local.settings.Some? && k in stores.local.settings.value
      then r[k] == stores.local.settings.value[k]
      else if stores.sync.Some? && stores.sync.value.settings.Some? && k in stores.sync.value.settings.value
      then r[k] == stores.sync.value.settings.value[k]
      else k in DefaultSettings && r[k] == DefaultSettings[k]
  {
    var syncSettings := if stores.sync.Some? then stores.sync.value.settings else None;
    Spread(Spread(DefaultSettings, syncSettings), stores.local.settings)
  }

  /** After `saveSettings`, the page's cache loads exactly what `loadData`
      loads: both areas hold the same merged settings. */
  lemma SavedSettingsReachThePage(stores: Stores, settings: Settings)
    ensures LoadSettings(SaveSettings(stores, settings)) == DefaultSettings + settings
    ensures LoadSettings(SaveSettings(stores, settings)) == LoadData(SaveSettings(stores, settings)).settings
  {
    var r := SaveSettings(stores, settings);
    var merged := DefaultSettings + settings;
    assert r.local.settings == Some(merged);
    SaveThenLoadSettings(stores, settings);
    assert LoadSettings(r) == merged;
  }

  /** The `storage.onChanged` listener: a change to `settings` replaces the
      whole cache with the new value over the defaults (`None` is a deleted
      value); other changes keep the cache. */
  function OnSettingsChanged(cached: Settings, settingsChanged: bool, newValue: Option<Settings>): (r: Settings)
    ensures !settingsChanged ==> r == cached
    ensures settingsChanged ==> DefaultSettings.Keys <= r.Keys
    ensures settingsChanged && newValue.Some? ==> newValue.value.Keys <= r.Keys
    ensures settingsChanged ==> forall k :: k in r ==>
      if newValue.Some? && k in newValue.value then r[k] == newValue.value[k]
      else k in DefaultSettings && r[k] == DefaultSettings[k]
  {
    if settingsChanged then Spread(DefaultSettings, newValue) else cached
  }

  /** The cache after a change does not depend on what it held before: keys
      that came only from the other area are dropped. */
  lemma ChangeForgetsCache(a: Settings, b: Settings, newValue: Option<Settings>)
    ensures OnSettingsChanged(a, true, newValue) == OnSettingsChanged(b, true, newValue)
  {
  }

  /** `shouldAutoExpand(event)`: only with `autoExpandOnSpace` truthy in the
      cache, and only for the space and Enter keys. Which stored value the
      cache holds is stated by `AutoExpandFollowsStores`. */
  function ShouldAutoExpand(cached: Settings, key: string): (r: bool)
    ensures r ==> key == " " || key == "Enter"
  {
    if AutoExpandKey !in cached || !Truthy(cached[AutoExpandKey]) then false
    else key == " " || key == "Enter"
  }

  /** The flag as the page sees it: local's stored value if local has one,
      else sync's, else the default `false`. */
  lemma AutoExpandFollowsStores(stores: Stores, key: string)
    ensures ShouldAutoExpand(LoadSettings(stores), key)
        <==> (key == " " || key == "Enter")
             && if stores.local.settings.Some? && AutoExpandKey in stores.local.settings.value
                then Truthy(stores.local.settings.value[AutoExpandKey])
                else stores.sync.Some? && stores.sync.value.settings.Some?
                     && AutoExpandKey in stores.sync.value.settings.value
                     && Truthy(stores.sync.value.settings.value[AutoExpandKey])
  {
    var r := LoadSettings(stores);
    assert AutoExpandKey in DefaultSettings && DefaultSettings[AutoExpandKey] == Flag(false);
    assert AutoExpandKey in r;
  }

  /** With the default settings, no key press expands anything. */
  lemma DefaultsNeverAutoExpand(key: string)
    ensures !ShouldAutoExpand(DefaultSettings, key)
  {
  }

  /** Auto-expansion follows the setting most recently saved. */
  lemma SavedFlagDecides(stores: Stores, settings: Settings, key: string)
    requires AutoExpandKey in settings
    ensures ShouldAutoExpand(LoadSettings(SaveSettings(stores, settings)), key)
        <==> Truthy(settings[AutoExpandKey]) && (key == " " || key == "Enter")
  {
    SavedSettingsReachThePage(stores, settings);
  }

  /** Every default template ends with the selection followed by the caret
      marker, so the selected text is appended and the caret lands after it. */
  lemma DefaultTemplatesEndWithCaret(i: nat)
    requires i < |DefaultShortcuts|
    ensures EndsWith(DefaultShortcuts[i].template, SelectionMarker + CursorMarker)
  {
    var d := DefaultShortcuts;
    assert |d| == 10;
    var s := d[i];
    assert EndsWith(s.template, SelectionMarker + CursorMarker);
  }

  /** Every default shortcut's name is a `#token` the caret search can find,
      so typing it and expanding finds that shortcut. */
  lemma DefaultNamesAreFound(i: nat)
    requires i < |DefaultShortcuts|
    ensures var name := DefaultShortcuts[i].name;
      && GetTokenAtCursor(name, |name|, false) == Some(TokenMatch(name, 0, |name|, 0))
      && FindShortcutByName(DefaultShortcuts, name) == Some(DefaultShortcuts[i])
  {
    var name := DefaultShortcuts[i].name;
    assert IsToken(name);
    WholeTokenFound(name);
    DefaultNamesDistinct();
    FindUnique(DefaultShortcuts, name, i);
  }
}
