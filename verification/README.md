# Retroarch launcher model

This project models the Retroarch launcher of the `plugin.program.RetroarchLauncher` Kodi
add-on. The launcher exists in two revisions: `resources/lib/launcher.py` is the current
one and `resources/launcher.py` is the legacy one. The model covers both. Where they
differ, the legacy member carries the prefix `Legacy`. Shared procedures take the
difference as a parameter: the label rule, the sentinels and the Android folder list.

The launcher turns a platform, its settings dictionary and what it finds on disk into
four things:

- selection lists for the setup wizard (cores, configuration files, application folders);
- updates of the settings after a choice;
- the executable to run;
- the arguments to pass, or the Android intent fields.

The model writes all of this as pure Dafny functions:

- The platform is a datatype: `Windows`, `Linux`, `Android`, `OtherOs`.
- The settings are a map from keys to text or to nested sections.
- Python's `OrderedDict` is a sequence of entries. Assigning a key keeps its position.
- The filesystem is a record of existing paths, directory listings, recursive listings and
  parsed property files.
- A Python `KeyError` or `StopIteration` is a `Failure` of a `Result`.

Modules, in dependency order:

- `Results`, `Strings`: `Option`/`Result`, and Python's `startswith`, `endswith`, `in`,
  `replace`, `split` and `<=` on `str`.
- `FileNames`: the parts of the host's `FileName` class the launcher uses. These are
  `getBase`, `getBaseNoExt`, `getDir`, `changeExtension`, `pjoin` and the directory form.
- `Environment`: platform, settings, filesystem, and the errors the code raises.
- `Resolver` / `ResolverProperties`:
  - `_create_path_from_retroarch_setting`;
  - `_switch_info_to_core_file` and `_switch_core_to_info_file`, which are the same in
    both revisions (`resources/launcher.py:324-353`);
  - their round trips.
- `OrderedMaps`, `StableSort`: dictionary assignment, and `sorted(..., key=label)`.
- `CoreDiscovery` / `CoreDiscoveryProperties`: `_builder_get_available_retroarch_cores`.
- `ConfigDiscovery` / `ConfigDiscoveryProperties`:
  `_builder_get_available_retroarch_configurations`.
- `AppFolders` / `AppFoldersProperties`: `_builder_get_retroarch_app_folders` (current)
  and `_builder_get_retroarch_app_folder` (legacy).
- `SettingsUpdate` / `SettingsUpdateProperties`: `_builder_load_selected_core_info`
  (both revisions) and `_builder_user_selected_to_type_path`.
- `Launch` / `LaunchProperties`:
  - `get_application` and `get_arguments` (current);
  - `_builder_get_default_retroarch_arguments`, `_launch_selectApplicationToUse` and
    `_launch_selectArgumentsToUse` (legacy).

Some functions only compute, and the lemmas state what they mean:

| function | models | lemmas about it |
|---|---|---|
| `InfoToCore`, `CoreToInfo` | the two switches | `InfoToCore*`, `CoreToInfo*`, `RoundTrip*` |
| `Collect` | the loop of the core scan | `Collect*` |
| `FirstNonEmptyScan` | the configuration loop | `FirstMatchWins`, `NoMatchAnywhere` |
| `PutAll` | repeated assignment | `PutAll*` |
| `Candidates`, `AppFolderPresets` | the current application-folder selection | `PresetKeys`, `PresetShape`, `SentinelsThenCandidates`, `PresetsListCandidates`, `LegacyChoosesFirstPreset` |

The model follows the code in these details:

- The legacy revision has no `display_name` fallback. It raises `KeyError`, which
  `DisplayNameOnly` models.
- An unsupported platform gives an empty application and unchanged arguments, with no
  warning.
- A file counts as a core binary when its name ends in `so` or `dll` without a dot
  (`input.endswith(cores_ext)`). So a descriptor named like `x.iso` is taken for a binary.

## Model

| member | source | states |
|---|---|---|
| Strings.SplitLast | resources/lib/launcher.py:323 | the last piece of `path.split('/')` is the text after the path's last separator |
| Strings.LessEqTotal | resources/lib/launcher.py:213 | Python's string order compares any two labels, so `sorted` by label is defined on every catalog |
| Strings.LessEqTransitive | resources/lib/launcher.py:213 | the label order is transitive, as sorting needs |
| Strings.ReplaceCharBeforeTail | resources/lib/launcher.py:383 | `replace('.', '_android.')` marks every dot of the text before the last one, then marks the last one, and leaves the extension after it as it was |
| FileNames.HeadBase | resources/lib/launcher.py:169 | a path is its directory part followed by its base name, and the base name holds no separator |
| FileNames.BaseOfJoin | resources/lib/launcher.py:385 | `pjoin` of a separator-free name onto any folder has that name as its base |
| FileNames.ChangeExtensionBase | resources/lib/launcher.py:381 | `changeExtension(ext)` keeps the folder and the stem and ends the base in `.ext` |
| FileNames.BaseNoExtUnderHead | resources/lib/launcher.py:192 | `getBaseNoExt` of `dir/stem.ext` is `stem` when `ext` has no dot |
| Environment.GetText | resources/lib/launcher.py:163 | a settings lookup succeeds exactly for a present text value and raises `KeyError` for a missing key |
| Environment.Property | resources/lib/launcher.py:172-173 | a property lookup gives the stored value, or `KeyError` exactly when the key is absent |
| Resolver.CoreExtension | resources/lib/launcher.py:156-161 | the core extension is `dll` exactly on Windows, and holds no dot or separator |
| Resolver.ResolveSetting | resources/lib/launcher.py:358-368 | a resolved setting is always a non-empty directory path |
| ResolverProperties.MarkerMeansRelative | resources/lib/launcher.py:359-361 | a `:\`-prefixed setting names the folder its remainder names when joined under the configuration's folder |
| ResolverProperties.UnmarkedSettingIsAbsolute | resources/lib/launcher.py:362-368 | any other setting ignores the configuration's folder and is used as it stands |
| ResolverProperties.ResolveSettingExample | resources/lib/launcher.py:358-361 | `:\cores` against `/opt/retroarch/` is `/opt/retroarch/cores/` |
| ResolverProperties.InfoToCoreOffAndroid | resources/lib/launcher.py:380-387 | off Android the binary is the descriptor's stem plus the core extension, in the cores folder |
| ResolverProperties.InfoToCoreOnAndroid | resources/lib/launcher.py:380-383 | on Android every dot of the new base name, including those inside the stem, gets `_android` before it |
| ResolverProperties.InfoToCoreOnAndroidSimple | resources/lib/launcher.py:380-383 | on Android `x.info` with a dot-free `x` becomes `x_android.<ext>` in the cores folder |
| ResolverProperties.CoreToInfoOffAndroid | resources/lib/launcher.py:370-376 | off Android the descriptor is the binary's stem plus `.info`, in the info folder |
| ResolverProperties.CoreToInfoOnAndroid | resources/lib/launcher.py:370-374 | on Android every `_android` is removed from the new base name |
| ResolverProperties.StripMarker | resources/lib/launcher.py:374 | removing `_android` from `x_android.info` gives `x.info` when `x` holds no marker of its own |
| ResolverProperties.RoundTripOffAndroid | resources/lib/launcher.py:370-387 | off Android core -> info undoes info -> core: `dir/x.info` comes back as `infoFolder/x.info` |
| ResolverProperties.RoundTripOnAndroid | resources/lib/launcher.py:370-387 | on Android the round trip holds when `x` has no dot and no `_android` |
| ResolverProperties.InfoToCoreIdempotentOffAndroid | resources/lib/launcher.py:370-387 | off Android, info -> core -> info -> core reaches the binary a single info -> core reaches |
| ResolverProperties.CoreToInfoOfMarkedStem | resources/lib/launcher.py:370-378 | on Android a binary with stem `x_android` maps to `x.info` |
| ResolverProperties.CoreToInfoStripsMarker | resources/lib/launcher.py:370-378 | on Android `<dir>/x_android.<ext>` maps to `<infoFolder>/x.info` |
| ResolverProperties.CoreToInfoTestExample | tests/launcher_test.py:98-120 | `/data/user/0/cores/mycore_libretro_android.so` with info folder `/data/user/0/infos/` gives `/data/user/0/infos/mycore_libretro.info` |
| OrderedMaps.IndexOfKey | resources/lib/launcher.py:207 | the position of a dictionary key is that of its first entry, or none when absent |
| OrderedMaps.Put | resources/lib/launcher.py:214 | `d[k] = v` keeps an existing key in place with the new label, and appends a new key at the end |
| OrderedMaps.PutAllAppends | resources/lib/launcher.py:212-214 | assigning fresh, distinct keys appends them in order |
| OrderedMaps.PutKeepsDistinct | resources/lib/launcher.py:214 | a dictionary never holds a key twice |
| OrderedMaps.PutPresentSame | resources/lib/launcher.py:214 | re-assigning a key its own label changes nothing |
| OrderedMaps.PutAllKeys | resources/lib/launcher.py:97-121 | assignments keep the earlier keys, in place and first, and the keys afterwards are the earlier ones plus the assigned ones |
| OrderedMaps.PutAllKeepsUntouched | resources/lib/launcher.py:97-121 | an entry whose key is not assigned again keeps its label and position |
| OrderedMaps.PutAllEntriesFrom | resources/lib/launcher.py:97-121 | every entry afterwards was there before or was assigned |
| OrderedMaps.PutAllDistinct | resources/lib/launcher.py:97-121 | assignments keep the keys distinct |
| StableSort.SortSorted | resources/lib/launcher.py:213 | `sorted(cores.items(), key=label)` is ascending by label |
| StableSort.SortPermutes | resources/lib/launcher.py:213 | sorting keeps exactly the entries it was given |
| StableSort.SortStable | resources/lib/launcher.py:213 | entries with equal labels keep their order, as Python's sort guarantees |
| StableSort.SortKeepsDistinct | resources/lib/launcher.py:213 | sorting distinct keys leaves them distinct |
| CoreDiscovery.Label | resources/lib/launcher.py:205-210 | the label is `display_name` when present; otherwise the base name without extension in the current revision, and `KeyError` in the legacy one |
| CoreDiscovery.Offered | resources/lib/launcher.py:190-202 | every descriptor that passes the loop's two `continue` checks is a scanned one, and there are no more of them than were scanned |
| CoreDiscovery.Expected | resources/lib/launcher.py:205-210 | reference listing: each descriptor with the label read from it, in order |
| CoreDiscovery.CatalogFromScan | resources/lib/launcher.py:212-215 | a built core selection opens with `BROWSE` |
| CoreDiscovery.ListCores | resources/lib/launcher.py:163-179 | a missing `retro_config` raises `KeyError`; a configuration file that does not exist gives the empty selection with a notice naming it; the selection is empty exactly when a notice is raised; a non-empty one opens with `BROWSE` |
| CoreDiscoveryProperties.OfferedMembers | resources/lib/launcher.py:190-202 | a descriptor is offered exactly when it was scanned and passes the checks |
| CoreDiscoveryProperties.OfferedNoDuplicates | resources/lib/launcher.py:189-202 | filtering a duplicate-free scan leaves it duplicate-free |
| CoreDiscoveryProperties.CollectSucceeds | resources/launcher.py:205-206 | the scan completes exactly when every offered descriptor can be read and labelled |
| CoreDiscoveryProperties.CollectMatchesExpected | resources/lib/launcher.py:188-210 | with distinct descriptors the `cores` dictionary is the reference listing in scan order |
| CoreDiscoveryProperties.CatalogIsSortedListing | resources/lib/launcher.py:212-215 | the selection is `BROWSE` followed by the reference listing of the offered descriptors sorted by label |
| CoreDiscoveryProperties.CatalogOrder | resources/lib/launcher.py:212-215 | after `BROWSE` the labels ascend, the entries are exactly the reference ones, and equal labels keep scan order |
| CoreDiscoveryProperties.CatalogEntryOffered | resources/lib/launcher.py:190-210 | each entry after `BROWSE` is an offered descriptor with the label read from it |
| CoreDiscoveryProperties.CatalogEntryListed | resources/lib/launcher.py:190-202 | each key after `BROWSE` is a scanned descriptor that is not `00_example_libretro`, whose binary exists unless on Android |
| CoreDiscoveryProperties.AndroidSkipsBinaryCheck | resources/lib/launcher.py:196-203 | on Android a descriptor is offered whatever the cores folder and the filesystem, exactly when it is not the template |
| CoreDiscoveryProperties.CollectReadersAgree | resources/launcher.py:205-206 | two readers that agree wherever the stricter one succeeds fill the dictionary alike |
| CoreDiscoveryProperties.LabelRulesAgree | resources/launcher.py:205-206 | where the legacy rule labels a descriptor, the current rule gives the same label |
| CoreDiscoveryProperties.RevisionsAgree | resources/launcher.py:154-211 | wherever the legacy core selection can be built, it equals the current one |
| CoreDiscoveryProperties.EmptyCatalogNotices | resources/lib/launcher.py:163-179 | an empty selection comes with a notice naming the missing configuration file, or the info folder resolved from `libretro_info_path`; the named path does not exist |
| CoreDiscoveryProperties.ListCoresConfigurationErrors | resources/lib/launcher.py:169-173 | an existing configuration file that cannot be read raises, and one lacking `libretro_info_path` or then `libretro_directory` raises `KeyError` for that key |
| CoreDiscoveryProperties.ListCoresAtResolvedFolders | resources/lib/launcher.py:172-215 | a missing resolved info folder gives the empty selection with its notice; otherwise the selection is the scan of the info folder resolved from `libretro_info_path`, checked against the cores folder resolved from `libretro_directory`, with no notice |
| CoreDiscoveryProperties.ListCoresIsSortedListing | resources/lib/launcher.py:163-215 | for a scan meeting the reference assumptions, the whole selection is `BROWSE` followed by the offered descriptors of the resolved info folder with their labels, sorted by label |
| ConfigDiscovery.ConfigEntries | resources/lib/launcher.py:146-148 | the configuration entries are keyed by the files found, in order |
| ConfigDiscovery.ListConfigs | resources/lib/launcher.py:126-152 | a missing `application` raises `KeyError`; the sentinels stay first |
| ConfigDiscovery.AvailableConfigurations | resources/lib/launcher.py:127-129 | the current selection opens with `BROWSE` then `TYPE` |
| ConfigDiscovery.LegacyAvailableConfigurations | resources/launcher.py:130-131 | the legacy selection opens with `BROWSE` |
| ConfigDiscoveryProperties.FirstMatchWins | resources/lib/launcher.py:141-150 | the first folder with any `.cfg` match supplies the files, and later folders are never consulted |
| ConfigDiscoveryProperties.NoMatchAnywhere | resources/lib/launcher.py:141-152 | no configuration is listed exactly when no folder has a match |
| ConfigDiscoveryProperties.ApplicationFolderFirst | resources/lib/launcher.py:131-139 | matches in the application folder make the platform irrelevant |
| ConfigDiscoveryProperties.ConfigsAfterSentinels | resources/lib/launcher.py:146-148 | distinct files follow the sentinels in scan order, each labelled with its base name without extension |
| ConfigDiscoveryProperties.ScanIgnoresEmptyLast | resources/lib/launcher.py:139 | a trailing folder without matches changes nothing |
| ConfigDiscoveryProperties.LegacyMatchesCurrent | resources/launcher.py:133-141 | when `/storage/emulated/0/Retroarch/` holds no match, the legacy selection lists after `BROWSE` exactly what the current one lists after `BROWSE` and `TYPE` |
| ConfigDiscoveryProperties.CurrentListing | resources/lib/launcher.py:126-152 | for distinct found files none named like a sentinel, the current selection is `BROWSE`, `TYPE`, then the files found in the first matching folder |
| ConfigDiscoveryProperties.LegacyListing | resources/launcher.py:129-152 | under the same conditions, the legacy selection is `BROWSE`, then the files found in the first matching legacy folder |
| AppFolders.Existing | resources/lib/launcher.py:117-121 | a well-known folder is offered exactly when it exists |
| AppFoldersProperties.ExistingAppend | resources/lib/launcher.py:117-121 | the existing folders of two lists in a row are those of the first list followed by those of the second, so the offered folders keep the well-known list's order |
| AppFoldersProperties.ExistingDistinct | resources/lib/launcher.py:110-121 | the well-known list has no repeats, so neither do the existing folders taken from it |
| AppFolders.Configured | resources/lib/launcher.py:101-107 | the configured folder, in directory form, is offered exactly when it is set and exists |
| AppFolders.SelfLabelled | resources/lib/launcher.py:107 | each folder is labelled with its own path |
| AppFolders.FirstExisting | resources/launcher.py:119-124 | the result is a folder of the list that exists, and it is missing exactly when no folder of the list exists |
| AppFoldersProperties.FirstExistingIsFirst | resources/launcher.py:119-124 | a found folder sits at a position of the list with no existing folder before it |
| AppFoldersProperties.FirstExistingAt | resources/launcher.py:119-124 | the folder at position `i` is the one found whenever it exists and no folder before it does |
| AppFolders.LegacyAppFolder | resources/launcher.py:101-127 | the legacy choice is an existing folder or `/` |
| AppFoldersProperties.CandidatesAreNotSentinels | resources/lib/launcher.py:98-121 | no candidate folder is named `BROWSE` or `TYPE` |
| AppFoldersProperties.PresetKeys | resources/lib/launcher.py:96-124 | the selection offers the two sentinels, the configured folder when it exists, and on Android every well-known folder that exists, and nothing else |
| AppFoldersProperties.PresetShape | resources/lib/launcher.py:96-124 | the sentinels come first, unchanged, and every folder after them is labelled with its own path |
| AppFoldersProperties.SentinelsThenCandidates | resources/lib/launcher.py:96-124 | the first candidate folder sits right after the sentinels, and there is nothing after them exactly when there is no candidate |
| AppFoldersProperties.FirstExistingHead | resources/launcher.py:119-124 | the first existing folder is the head of the existing ones |
| AppFoldersProperties.LegacyChoosesFirstCandidate | resources/launcher.py:101-127 | the legacy choice is the first folder the current revision would offer, or `/` when it offers none |
| AppFoldersProperties.LegacyChoosesFirstPreset | resources/launcher.py:101-127 | the legacy choice is the first entry after the current selection's sentinels, or `/` when there is none |
| AppFoldersProperties.LegacyAppFolderOrder | resources/launcher.py:101-127 | the configured folder wins when set and present; otherwise on Android the choice is the well-known folder at position `i` whenever it exists and none before it does; otherwise `/` |
| AppFoldersProperties.PresetsListCandidates | resources/lib/launcher.py:96-124 | when the configured folder is not also a well-known one, the selection is `BROWSE`, `TYPE`, then the configured folder and the existing well-known folders in list order, each labelled with itself |
| SettingsUpdate.ReadSelection | resources/lib/launcher.py:231-238 | choosing a descriptor reads `retro_config`, its `libretro_directory` and the descriptor, and fails exactly when one is missing; the properties are the descriptor's |
| SettingsUpdate.StoreSelection | resources/lib/launcher.py:240-241 | the descriptor path goes under the item key and the core under `retro_core`, and nothing else changes |
| SettingsUpdate.StoreSections | resources/lib/launcher.py:243-249 | `romcollection` holds platform, developer and name, `scanners` holds the extensions, and nothing else changes |
| SettingsUpdate.StoreFields | resources/launcher.py:242-245 | `romext`, `platform`, `m_developer` and `m_name` are set, and nothing else changes |
| SettingsUpdate.StoreDescriptor | resources/lib/launcher.py:240-249 | storing a read descriptor succeeds exactly when it has `systemname`, `manufacturer` and `supported_extensions`; it changes only the item key, `retro_core`, `romcollection` and `scanners`, and stores the core |
| SettingsUpdate.LoadDescriptor | resources/lib/launcher.py:231-249 | a stored descriptor was read successfully, its core is under `retro_core`, and only the four keys change |
| SettingsUpdate.LoadSelectedCoreInfo | resources/lib/launcher.py:217-251 | `BROWSE` changes nothing; a core binary sets only `retro_core`; a descriptor changes at most the item key, `retro_core`, `romcollection` and `scanners` |
| SettingsUpdate.LegacyStoreDescriptor | resources/launcher.py:236-245 | a declined overwrite stores only the selection; otherwise storing succeeds exactly when the three properties are present; only the item key, `retro_core` and the four flat fields change |
| SettingsUpdate.LegacyLoadDescriptor | resources/launcher.py:227-245 | a stored descriptor was read successfully and its core is under `retro_core`; a declined overwrite never fails after the read |
| SettingsUpdate.LegacyLoadSelectedCoreInfo | resources/launcher.py:213-247 | `BROWSE` changes nothing; a core binary sets only `retro_core`; a declined overwrite changes only the item key and `retro_core` |
| SettingsUpdate.UserSelectedToTypePath | resources/lib/launcher.py:253-257 | `TYPE` becomes the empty path and the result is true; any other value is left alone and the result is false; a missing key raises `KeyError` |
| SettingsUpdateProperties.DescriptorStored | resources/lib/launcher.py:240-249 | a stored descriptor has its path, its ROM collection and its scanner extensions |
| SettingsUpdateProperties.DescriptorSelected | resources/lib/launcher.py:231-249 | choosing a descriptor succeeds exactly when every file and key it reads is there, and then stores its path, core, ROM collection and extensions |
| SettingsUpdateProperties.SelectionCore | resources/lib/launcher.py:231-237 | the chosen core is the descriptor's binary in the cores folder resolved against the configuration's folder |
| SettingsUpdateProperties.StoredCoreLeadsBack | resources/lib/launcher.py:231-241 | the core stored for `x.info` maps back to `x.info` in any info folder: always off Android, and on Android when `x` has no dot and no `_android` |
| SettingsUpdateProperties.LegacyDeclined | resources/launcher.py:236-240 | a declined overwrite stores the descriptor and its core and leaves the four descriptor fields as they were |
| SettingsUpdateProperties.LegacyOverwrites | resources/launcher.py:233-245 | an accepted or unasked overwrite writes extensions, platform, developer and name flat from the descriptor |
| SettingsUpdateProperties.RevisionsStoreSameCore | resources/launcher.py:213-247 | wherever the current revision accepts a choice, the legacy one accepts it for either answer and stores the same core |
| SettingsUpdateProperties.TypePathIdempotent | resources/lib/launcher.py:253-257 | after `TYPE` is cleared, a second call reports false and changes nothing |
| Launch.LastNonEmpty | resources/lib/launcher.py:323 | the piece `next(...)` picks is non-empty and one of the pieces |
| Launch.PackageName | resources/lib/launcher.py:322-323 | when the package cannot be found, the error is the `StopIteration` for that path |
| Launch.TrimSeparators | resources/lib/launcher.py:323 | reference: the path without its trailing separators |
| Launch.BetweenWrapped | resources/lib/launcher.py:336-338 | the text inside a quoted argument can be read back |
| Launch.BetweenPrefixed | resources/lib/launcher.py:346-348 | the text after an argument's prefix can be read back |
| Launch.GetApplication | resources/lib/launcher.py:314-331 | Windows gives the `application` setting followed by `retroarch.exe`; Android gives a segment of the application path; another OS gives `''`; a missing `application` raises `KeyError` |
| Launch.GetArguments | resources/lib/launcher.py:333-353 | the given args stay a prefix; Windows/Linux append `-L "<core>"`, `-c "<config>"`, `"$rom$"`; Android appends `ROM $rom$`, `LIBRETRO <core>`, `CONFIGFILE <config>` and `REFRESH 60` in that order, sets intent, category, flags and class to their fixed values and keeps the other keyword arguments; another OS changes nothing |
| Launch.LegacyDefaultArguments | resources/launcher.py:249-254 | default arguments exist only on Android |
| Launch.LegacySelectApplication | resources/launcher.py:282-295 | the result is true on Android and on Windows with an application; false means the application is `''`; Windows gives the `application` setting followed by `retroarch.exe` |
| Launch.LegacySelectArguments | resources/launcher.py:297-319 | Windows/Linux give the fixed template followed directly by `args`; Android gives the `am start` command for the activity in the package named by `application`, then the ROM, LIBRETRO and CONFIGFILE extras, then `args` only when that key is present; another OS returns false |
| LaunchProperties.LastNonEmptySkipsEmpty | resources/lib/launcher.py:323 | a trailing empty piece does not change the chosen one |
| LaunchProperties.PackageNameIsTrimmedBase | resources/lib/launcher.py:323 | the package is the base name of the path without its trailing separators, and fails exactly when nothing is left |
| LaunchProperties.LastNonEmptyOfSplit | resources/lib/launcher.py:323 | the last non-empty piece of `split('/')` is the base of the trimmed path |
| LaunchProperties.PackageNameOfFolder | resources/launcher.py:306-307 | the package of `dir/name/` is `name` |
| LaunchProperties.PackageNameExample | tests/launcher_test.py:64 | `/storage/emulated/0/Android/data/com.retroarch/` names the package `com.retroarch` |
| LaunchProperties.LaunchFlagsMeaning | resources/lib/launcher.py:343 | `270532608` is `FLAG_ACTIVITY_NEW_TASK \| FLAG_ACTIVITY_RESET_TASK_IF_NEEDED` |
| LaunchProperties.DesktopWordsJoined | resources/launcher.py:299-301 | the current desktop arguments with placeholders, joined by spaces, are the legacy template |
| LaunchProperties.LegacyDesktopArgumentsMatchCurrent | resources/launcher.py:298-303 | the legacy desktop string is the current argument list, computed with placeholders and joined, followed by `args` |
| LaunchProperties.LegacyAndroidMatchesCurrent | resources/launcher.py:305-316 | the legacy Android command starts the current revision's activity class in the current revision's package |
| LaunchProperties.ApplicationRevisions | resources/launcher.py:282-295 | Windows: both revisions give the same executable; Android: legacy runs `/system/bin/am`; Linux: legacy returns false with `''` |
| LaunchProperties.LegacyAndroidTestExample | tests/launcher_test.py:64-79 | with the test's application folder the legacy launcher runs `/system/bin/am` with `-n com.retroarch/com.retroarch.browser.retroactivity.RetroActivityFuture` |

## Left out

- I/O is not modelled. Existence checks, directory scans and property files are fields of
  the filesystem record, so scan order and property-file parsing are inputs. This
  includes skipping malformed lines.
- Logging, `kodi.notify_error`, `kodi.dialog_yesno` and `kodi.browse` are not modelled.
  Notifications appear as the `Notice` of an empty core selection. The overwrite answer
  is a boolean parameter.
- The wizard plumbing is left out: `_builder_get_wizard`, the pre/post hooks,
  `_builder_get_edit_options`, the `_change_*` methods and the legacy `change_*` methods.
  These are UI code.
- OS detection is left out. The platform is a parameter, and the flags `is_windows`,
  `is_linux` and `is_android` are taken as exclusive.
- `FileName` is in a library that is not part of this model. It is modelled as path
  strings. `append` is plain concatenation, so a Windows application path needs its
  trailing separator. `changeExtension` replaces the text after the last dot of the base,
  or adds one. The directory form (`isdir=True`, `FileNames.AsDir`) is taken to add a
  trailing `/` when there is none, so `""` becomes `"/"`. `ResolveSetting`, `Configured`
  and `CandidatesAreNotSentinels` rely on this.
- The base class's `get_arguments`, the substitution of `$rom$`, `$retro_core$` and
  `$retro_config$`, and process execution are left out. `GetArguments` returns the
  positional list and keyword map handed to the base class.
- Launch.GetApplication: on Linux the source returns a `FileName` object; the model
  returns its path.
- SettingsUpdate.LoadSelectedCoreInfo: when a `KeyError` stops the function midway, the
  source has already changed some keys; the model returns only the error. The same holds
  for `LegacyLoadSelectedCoreInfo`.
- Environment.GetText: a non-text value where text is expected counts as an error. Python
  would format the value.
- CoreDiscovery.Collect: it filters with the two `continue` checks first and reads
  afterwards. These checks read nothing and raise nothing, so the same reads and errors
  happen in the same order.
- CoreDiscoveryProperties.CatalogIsSortedListing: the reference listings assume a scan
  with no duplicate paths and no file named `BROWSE`. `Collect` itself handles
  duplicates.
- CoreDiscoveryProperties.CatalogOrder: assumes the same duplicate-free scan without a
  `BROWSE` file.
- CoreDiscoveryProperties.CatalogEntryOffered: assumes the same duplicate-free scan
  without a `BROWSE` file.
- CoreDiscoveryProperties.CatalogEntryListed: assumes the same duplicate-free scan
  without a `BROWSE` file.
- CoreDiscoveryProperties.ListCoresIsSortedListing: assumes the same duplicate-free scan
  without a `BROWSE` file, at the resolved info folder.
- ConfigDiscoveryProperties.ConfigsAfterSentinels: assumes a scan with no duplicate paths
  and no file named like a sentinel. The dictionary assignment itself handles both.
- ConfigDiscoveryProperties.LegacyMatchesCurrent: assumes the same scan without
  duplicates or sentinel names.
- ConfigDiscoveryProperties.CurrentListing: assumes the same scan without duplicates or
  sentinel names.
- ConfigDiscoveryProperties.LegacyListing: assumes the same scan without duplicates or
  sentinel names.
- AppFoldersProperties.PresetsListCandidates: assumes the configured folder is not also one
  of the well-known Android folders. When it is, the dictionary keeps one entry in the
  configured folder's position, which `PresetKeys` and `PresetShape` still describe.
- Only `/`-separated paths are modelled. On Windows Python's `ntpath` also splits on `\`
  and joins with `\`, so `getBase`, `pjoin` and `getBaseNoExt` of backslash paths differ
  from the model. This touches the `00_example_libretro` check and both file switches.
- The legacy `_build_post_wizard_hook` and the `secname` it sets are not modelled.
