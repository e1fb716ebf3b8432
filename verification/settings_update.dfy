/** The wizard's settings transitions: `_builder_load_selected_core_info` in both revisions
    and `_builder_user_selected_to_type_path`. The launcher settings are a map that each
    transition returns updated; Python mutates the same dictionary in place. */
module SettingsUpdate {
  import opened Results
  import opened Strings
  import opened FileNames
  import opened Environment
  import opened Resolver
  import opened CoreDiscovery
  import opened ConfigDiscovery

  const RetroCore: string := "retro_core"
  const RomCollection: string := "romcollection"
  const Scanners: string := "scanners"

  /** The legacy revision's flat descriptor fields. */
  const RomExt: string := "romext"
  const PlatformKey: string := "platform"
  const Developer: string := "m_developer"
  const Name: string := "m_name"

  /** `a` and `b` hold the same keys and values outside `changed`. */
  ghost predicate AgreeExcept(a: Settings, b: Settings, changed: set<string>) {
    forall k | (k in a || k in b) && k !in changed :: k in a && k in b && a[k] == b[k]
  }

  /** What a descriptor selection yields: the core binary it names and its properties. */
  datatype Selection = Selection(core: string, info: map<string, string>)

  /** `_switch_info_to_core_file` on platform `p`, as the selection step applies it. */
  function CoreSwitch(p: Platform): (string, string) -> string {
    (info, coresFolder) => InfoToCore(p, info, coresFolder, CoreExtension(p))
  }

  /** The steps both revisions take for a descriptor: read the configuration named by
      `retro_config`, resolve its `libretro_directory` against the configuration's folder,
      map the descriptor to its binary there with `switch`, and read the descriptor. */
  function ReadSelection(switch: (string, string) -> string, fs: FileSystem, input: string, settings: Settings)
    : (r: Result<Selection, Error>)
    ensures r.Success? <==>
              && "retro_config" in settings && settings["retro_config"].Text?
              && settings["retro_config"].text in fs.properties
              && "libretro_directory" in fs.properties[settings["retro_config"].text]
              && input in fs.properties
    ensures r.Success? ==> r.value.info == fs.properties[input]
  {
    var config :- GetText(settings, "retro_config");
    var configuration :- ReadPropertyFile(fs, config);
    var coresSetting :- Property(configuration, "libretro_directory");
    var core := switch(input, ResolveSetting(coresSetting, Head(config)));
    var info :- ReadPropertyFile(fs, input);
    Success(Selection(core, info))
  }

  /** Recording the chosen descriptor under `itemKey` and its core under `retro_core`. */
  function StoreSelection(settings: Settings, itemKey: string, input: string, core: string): (s: Settings)
    ensures AgreeExcept(s, settings, {itemKey, RetroCore})
    ensures RetroCore in s && s[RetroCore] == Text(core)
    ensures itemKey != RetroCore ==> itemKey in s && s[itemKey] == Text(input)
  {
    settings[itemKey := Text(input)][RetroCore := Text(core)]
  }

  /** The current revision's descriptor sections: the ROM collection and the scanner. */
  function StoreSections(settings: Settings, systemName: string, manufacturer: string, extensions: string): (s: Settings)
    ensures AgreeExcept(s, settings, {RomCollection, Scanners})
    ensures RomCollection in s && s[RomCollection] == Section(map[PlatformKey := systemName, Developer := manufacturer, Name := systemName])
    ensures Scanners in s && s[Scanners] == Section(map[RomExt := extensions])
  {
    settings[RomCollection := Section(map[PlatformKey := systemName, Developer := manufacturer, Name := systemName])]
            [Scanners := Section(map[RomExt := extensions])]
  }

  /** The legacy revision's flat descriptor fields. */
  function StoreFields(settings: Settings, extensions: string, systemName: string, manufacturer: string): (s: Settings)
    ensures AgreeExcept(s, settings, {RomExt, PlatformKey, Developer, Name})
    ensures RomExt in s && s[RomExt] == Text(extensions)
    ensures PlatformKey in s && s[PlatformKey] == Text(systemName)
    ensures Developer in s && s[Developer] == Text(manufacturer)
    ensures Name in s && s[Name] == Text(systemName)
  {
    settings[RomExt := Text(extensions)][PlatformKey := Text(systemName)][Developer := Text(manufacturer)][Name := Text(systemName)]
  }

  /** Whether the selection names a core binary rather than a descriptor. */
  predicate IsCoreFile(p: Platform, input: string) {
    EndsWith(input, CoreExtension(p))
  }

  /** The current revision's handling of a read descriptor: store it and its core, then
      its system name and manufacturer as the ROM collection and its extensions as the
      scanner. */
  function StoreDescriptor(settings: Settings, itemKey: string, input: string, selection: Selection): (r: Result<Settings, Error>)
    ensures r.Success? <==>
              "systemname" in selection.info && "manufacturer" in selection.info && "supported_extensions" in selection.info
    ensures r.Success? ==> AgreeExcept(r.value, settings, {itemKey, RetroCore, RomCollection, Scanners})
    ensures r.Success? ==> RetroCore in r.value && r.value[RetroCore] == Text(selection.core)
  {
    var systemName :- Property(selection.info, "systemname");
    var manufacturer :- Property(selection.info, "manufacturer");
    var extensions :- Property(selection.info, "supported_extensions");
    Success(StoreSections(StoreSelection(settings, itemKey, input, selection.core), systemName, manufacturer, extensions))
  }

  /** A descriptor chosen in the current revision, its binary found with `switch`. */
  function LoadDescriptor(switch: (string, string) -> string, fs: FileSystem, input: string, itemKey: string, settings: Settings)
    : (r: Result<Settings, Error>)
    ensures r.Success? ==> ReadSelection(switch, fs, input, settings).Success?
    ensures r.Success? ==> AgreeExcept(r.value, settings, {itemKey, RetroCore, RomCollection, Scanners})
    ensures r.Success? ==> RetroCore in r.value && r.value[RetroCore] == Text(ReadSelection(switch, fs, input, settings).value.core)
  {
    var selection :- ReadSelection(switch, fs, input, settings);
    StoreDescriptor(settings, itemKey, input, selection)
  }

  /** `_builder_load_selected_core_info(input, item_key, launchers_settings)`, current revision. */
  function LoadSelectedCoreInfo(p: Platform, fs: FileSystem, input: string, itemKey: string, settings: Settings)
    : (r: Result<Settings, Error>)
    ensures input == BrowseKey ==> r == Success(settings)
    ensures input != BrowseKey && IsCoreFile(p, input) ==>
              && r.Success?
              && AgreeExcept(r.value, settings, {RetroCore})
              && RetroCore in r.value && r.value[RetroCore] == Text(input)
    ensures r.Success? ==> AgreeExcept(r.value, settings, {itemKey, RetroCore, RomCollection, Scanners})
  {
    if input == BrowseKey then Success(settings)
    else if IsCoreFile(p, input) then Success(settings[RetroCore := Text(input)])
    else LoadDescriptor(CoreSwitch(p), fs, input, itemKey, settings)
  }

  /** The legacy revision's handling of a read descriptor: store it and its core, then,
      unless `overwrite` is false, its extensions, system name and manufacturer as flat
      fields. */
  function LegacyStoreDescriptor(settings: Settings, itemKey: string, input: string, selection: Selection, overwrite: bool)
    : (r: Result<Settings, Error>)
    ensures !overwrite ==> r == Success(StoreSelection(settings, itemKey, input, selection.core))
    ensures r.Success? <==>
              !overwrite || ("supported_extensions" in selection.info && "systemname" in selection.info && "manufacturer" in selection.info)
    ensures r.Success? ==> AgreeExcept(r.value, settings, {itemKey, RetroCore, RomExt, PlatformKey, Developer, Name})
    ensures r.Success? ==> RetroCore in r.value && r.value[RetroCore] == Text(selection.core)
  {
    var chosen := StoreSelection(settings, itemKey, input, selection.core);
    if !overwrite then Success(chosen)
    else
      var extensions :- Property(selection.info, "supported_extensions");
      var systemName :- Property(selection.info, "systemname");
      var manufacturer :- Property(selection.info, "manufacturer");
      Success(StoreFields(chosen, extensions, systemName, manufacturer))
  }

  /** A descriptor chosen in the legacy revision, its binary found with `switch`. */
  function LegacyLoadDescriptor(switch: (string, string) -> string, fs: FileSystem, input: string, itemKey: string,
                                settings: Settings, overwrite: bool): (r: Result<Settings, Error>)
    ensures r.Success? ==> ReadSelection(switch, fs, input, settings).Success?
    ensures r.Success? ==> AgreeExcept(r.value, settings, {itemKey, RetroCore, RomExt, PlatformKey, Developer, Name})
    ensures r.Success? ==> RetroCore in r.value && r.value[RetroCore] == Text(ReadSelection(switch, fs, input, settings).value.core)
    ensures ReadSelection(switch, fs, input, settings).Success? && !overwrite ==> r.Success?
  {
    var selection :- ReadSelection(switch, fs, input, settings);
    LegacyStoreDescriptor(settings, itemKey, input, selection, overwrite)
  }

  /** `_builder_load_selected_core_info(input, item_key, launcher, ask_overwrite)`, legacy
      revision. `confirmed` is the answer to the overwrite question, which is only asked
      when `askOverwrite` holds. */
  function LegacyLoadSelectedCoreInfo(p: Platform, fs: FileSystem, input: string, itemKey: string, settings: Settings,
                                      askOverwrite: bool, confirmed: bool): (r: Result<Settings, Error>)
    ensures input == BrowseKey ==> r == Success(settings)
    ensures input != BrowseKey && IsCoreFile(p, input) ==>
              && r.Success?
              && AgreeExcept(r.value, settings, {RetroCore})
              && RetroCore in r.value && r.value[RetroCore] == Text(input)
    ensures r.Success? ==> AgreeExcept(r.value, settings, {itemKey, RetroCore, RomExt, PlatformKey, Developer, Name})
    ensures r.Success? && askOverwrite && !confirmed ==> AgreeExcept(r.value, settings, {itemKey, RetroCore})
  {
    if input == BrowseKey then Success(settings)
    else if IsCoreFile(p, input) then Success(settings[RetroCore := Text(input)])
    else LegacyLoadDescriptor(CoreSwitch(p), fs, input, itemKey, settings, !(askOverwrite && !confirmed))
  }

  /** `_builder_user_selected_to_type_path(item_key, launcher)`: the pair is the returned flag
      and the updated settings. */
  function UserSelectedToTypePath(itemKey: string, settings: Settings): (r: Result<(bool, Settings), Error>)
    ensures r.Failure? <==> itemKey !in settings
    ensures r.Success? ==> (r.value.0 <==> settings[itemKey] == Text(TypeKey))
    ensures r.Success? && r.value.0 ==> AgreeExcept(r.value.1, settings, {itemKey}) && itemKey in r.value.1 && r.value.1[itemKey] == Text("")
    ensures r.Success? && !r.value.0 ==> r.value.1 == settings
  {
    if itemKey !in settings then Failure(MissingKey(itemKey))
    else if settings[itemKey] == Text(TypeKey) then Success((true, settings[itemKey := Text("")]))
    else Success((false, settings))
  }
}

/** What the settings transitions promise beyond their frames. */
module SettingsUpdateProperties {
  import opened Results
  import opened Strings
  import opened FileNames
  import opened Environment
  import opened Resolver
  import opened ResolverProperties
  import opened CoreDiscovery
  import opened ConfigDiscovery
  import opened SettingsUpdate

  /** A read descriptor, in the current revision, is stored with its core, its ROM
      collection and its scanner extensions. */
  lemma DescriptorStored(settings: Settings, itemKey: string, input: string, selection: Selection)
    requires itemKey !in {RetroCore, RomCollection, Scanners}
    requires StoreDescriptor(settings, itemKey, input, selection).Success?
    ensures var s := StoreDescriptor(settings, itemKey, input, selection).value;
            var info := selection.info;
            && s[itemKey] == Text(input)
            && s[RomCollection] == Section(map[PlatformKey := info["systemname"], Developer := info["manufacturer"], Name := info["systemname"]])
            && s[Scanners] == Section(map[RomExt := info["supported_extensions"]])
  {
    var info := selection.info;
    var chosen := StoreSelection(settings, itemKey, input, selection.core);
    var s := StoreSections(chosen, info["systemname"], info["manufacturer"], info["supported_extensions"]);
    assert StoreDescriptor(settings, itemKey, input, selection) == Success(s);
    assert s[itemKey] == chosen[itemKey];
  }

  /** Choosing a descriptor stores its path, the core binary it names, the ROM collection
      fields and the scanner extensions; it succeeds exactly when every file and key it
      reads is there. */
  lemma DescriptorSelected(p: Platform, fs: FileSystem, input: string, itemKey: string, settings: Settings)
    requires input != BrowseKey && !IsCoreFile(p, input)
    requires itemKey !in {RetroCore, RomCollection, Scanners}
    ensures LoadSelectedCoreInfo(p, fs, input, itemKey, settings).Success? <==>
              && ReadSelection(CoreSwitch(p), fs, input, settings).Success?
              && "systemname" in fs.properties[input]
              && "manufacturer" in fs.properties[input]
              && "supported_extensions" in fs.properties[input]
    ensures LoadSelectedCoreInfo(p, fs, input, itemKey, settings).Success? ==>
              var s := LoadSelectedCoreInfo(p, fs, input, itemKey, settings).value;
              var info := fs.properties[input];
              && s[itemKey] == Text(input)
              && s[RetroCore] == Text(ReadSelection(CoreSwitch(p), fs, input, settings).value.core)
              && s[RomCollection] == Section(map[PlatformKey := info["systemname"], Developer := info["manufacturer"], Name := info["systemname"]])
              && s[Scanners] == Section(map[RomExt := info["supported_extensions"]])
  {
    var read := ReadSelection(CoreSwitch(p), fs, input, settings);
    assert LoadSelectedCoreInfo(p, fs, input, itemKey, settings) == LoadDescriptor(CoreSwitch(p), fs, input, itemKey, settings);
    if read.Success? {
      assert LoadDescriptor(CoreSwitch(p), fs, input, itemKey, settings) == StoreDescriptor(settings, itemKey, input, read.value);
      if StoreDescriptor(settings, itemKey, input, read.value).Success? {
        DescriptorStored(settings, itemKey, input, read.value);
      }
    }
  }

  /** The selected core is the descriptor's binary in the configured cores folder. */
  lemma SelectionCore(p: Platform, fs: FileSystem, input: string, settings: Settings)
    requires ReadSelection(CoreSwitch(p), fs, input, settings).Success?
    ensures var config := settings["retro_config"].text;
            ReadSelection(CoreSwitch(p), fs, input, settings).value.core
            == InfoToCore(p, input, ResolveSetting(fs.properties[config]["libretro_directory"], Head(config)), CoreExtension(p))
  {
  }

  /** The core stored for a descriptor `x.info` leads back to `x.info` in any info folder:
      always off Android, and on Android when `x` has no '.' and no `_android`. */
  lemma StoredCoreLeadsBack(p: Platform, fs: FileSystem, input: string, x: string, itemKey: string, settings: Settings, infoFolder: string)
    requires input != BrowseKey && !IsCoreFile(p, input)
    requires Base(input) == x + ".info"
    requires p == Android ==> '.' !in x && !Contains(x, AndroidMarker)
    requires LoadSelectedCoreInfo(p, fs, input, itemKey, settings).Success?
    ensures RetroCore in LoadSelectedCoreInfo(p, fs, input, itemKey, settings).value
    ensures var stored := LoadSelectedCoreInfo(p, fs, input, itemKey, settings).value[RetroCore];
            stored.Text? && CoreToInfo(p, stored.text, infoFolder) == Join(infoFolder, x + ".info")
  {
    var config := settings["retro_config"].text;
    var coresFolder := ResolveSetting(fs.properties[config]["libretro_directory"], Head(config));
    assert LoadSelectedCoreInfo(p, fs, input, itemKey, settings).value[RetroCore]
        == Text(InfoToCore(p, input, coresFolder, CoreExtension(p))) by {
      assert LoadSelectedCoreInfo(p, fs, input, itemKey, settings) == LoadDescriptor(CoreSwitch(p), fs, input, itemKey, settings);
      SelectionCore(p, fs, input, settings);
    }
    if p == Android {
      RoundTripOnAndroid(input, x, coresFolder, infoFolder, CoreExtension(p));
    } else {
      RoundTripOffAndroid(p, input, x, coresFolder, infoFolder, CoreExtension(p));
    }
  }

  /** A declined overwrite stores the descriptor and its core and leaves the four
      descriptor fields as they were. */
  lemma LegacyDeclined(p: Platform, fs: FileSystem, input: string, itemKey: string, settings: Settings)
    requires input != BrowseKey && !IsCoreFile(p, input)
    requires ReadSelection(CoreSwitch(p), fs, input, settings).Success?
    ensures LegacyLoadSelectedCoreInfo(p, fs, input, itemKey, settings, true, false).Success?
    ensures var s := LegacyLoadSelectedCoreInfo(p, fs, input, itemKey, settings, true, false).value;
            && s[RetroCore] == Text(ReadSelection(CoreSwitch(p), fs, input, settings).value.core)
            && (itemKey != RetroCore ==> s[itemKey] == Text(input))
            && forall k | k in {RomExt, PlatformKey, Developer, Name} && k != itemKey && k != RetroCore ::
                 (k in s <==> k in settings) && (k in s ==> s[k] == settings[k])
  {
    var read := ReadSelection(CoreSwitch(p), fs, input, settings);
    assert LegacyLoadSelectedCoreInfo(p, fs, input, itemKey, settings, true, false)
        == Success(StoreSelection(settings, itemKey, input, read.value.core));
  }

  /** Accepted (or not asked), the legacy revision writes the descriptor fields flat. */
  lemma LegacyOverwrites(p: Platform, fs: FileSystem, input: string, itemKey: string, settings: Settings, askOverwrite: bool)
    requires input != BrowseKey && !IsCoreFile(p, input)
    requires itemKey !in {RetroCore, RomExt, PlatformKey, Developer, Name}
    requires LegacyLoadSelectedCoreInfo(p, fs, input, itemKey, settings, askOverwrite, true).Success?
    ensures ReadSelection(CoreSwitch(p), fs, input, settings).Success?
    ensures var s := LegacyLoadSelectedCoreInfo(p, fs, input, itemKey, settings, askOverwrite, true).value;
            var info := fs.properties[input];
            && "supported_extensions" in info && "systemname" in info && "manufacturer" in info
            && s[itemKey] == Text(input)
            && s[RetroCore] == Text(ReadSelection(CoreSwitch(p), fs, input, settings).value.core)
            && s[RomExt] == Text(info["supported_extensions"])
            && s[PlatformKey] == Text(info["systemname"]) && s[Name] == Text(info["systemname"])
            && s[Developer] == Text(info["manufacturer"])
  {
    var read := ReadSelection(CoreSwitch(p), fs, input, settings);
    assert LegacyLoadSelectedCoreInfo(p, fs, input, itemKey, settings, askOverwrite, true)
        == LegacyStoreDescriptor(settings, itemKey, input, read.value, true);
    var info := read.value.info;
    var chosen := StoreSelection(settings, itemKey, input, read.value.core);
    var s := StoreFields(chosen, info["supported_extensions"], info["systemname"], info["manufacturer"]);
    assert LegacyStoreDescriptor(settings, itemKey, input, read.value, true) == Success(s);
    assert s[itemKey] == chosen[itemKey];
  }

  /** Wherever the current revision accepts a descriptor, the legacy revision accepts it
      for either answer and stores the same core. */
  lemma RevisionsStoreSameCore(p: Platform, fs: FileSystem, input: string, itemKey: string, settings: Settings,
                               askOverwrite: bool, confirmed: bool)
    requires LoadSelectedCoreInfo(p, fs, input, itemKey, settings).Success?
    ensures LegacyLoadSelectedCoreInfo(p, fs, input, itemKey, settings, askOverwrite, confirmed).Success?
    ensures (RetroCore in LoadSelectedCoreInfo(p, fs, input, itemKey, settings).value)
        <==> (RetroCore in LegacyLoadSelectedCoreInfo(p, fs, input, itemKey, settings, askOverwrite, confirmed).value)
    ensures RetroCore in LoadSelectedCoreInfo(p, fs, input, itemKey, settings).value ==>
              (LoadSelectedCoreInfo(p, fs, input, itemKey, settings).value[RetroCore]
               == LegacyLoadSelectedCoreInfo(p, fs, input, itemKey, settings, askOverwrite, confirmed).value[RetroCore])
  {
    if input != BrowseKey && !IsCoreFile(p, input) {
      var read := ReadSelection(CoreSwitch(p), fs, input, settings);
      var overwrite := !(askOverwrite && !confirmed);
      assert LoadSelectedCoreInfo(p, fs, input, itemKey, settings) == LoadDescriptor(CoreSwitch(p), fs, input, itemKey, settings);
      assert LegacyLoadSelectedCoreInfo(p, fs, input, itemKey, settings, askOverwrite, confirmed)
          == LegacyStoreDescriptor(settings, itemKey, input, read.value, overwrite);
      assert StoreDescriptor(settings, itemKey, input, read.value).Success?;
    }
  }

  /** Turning `TYPE` into an empty path is idempotent: a second call reports false and
      changes nothing. */
  lemma TypePathIdempotent(itemKey: string, settings: Settings)
    requires UserSelectedToTypePath(itemKey, settings).Success?
    ensures var once := UserSelectedToTypePath(itemKey, settings).value.1;
            UserSelectedToTypePath(itemKey, once) == Success((false, once))
  {
  }
}
