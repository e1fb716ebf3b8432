/** `_builder_get_available_retroarch_configurations`: the selection of Retroarch
    configuration files, taken from the first candidate folder that holds any. */
module ConfigDiscovery {
  import opened Results
  import opened FileNames
  import opened Environment
  import opened OrderedMaps
  import opened CoreDiscovery

  const CfgMask: string := "*.cfg"

  const TypeKey: string := "TYPE"

  const BrowseConfig: Entry := Entry(BrowseKey, "Browse for configuration")
  const TypeConfig: Entry := Entry(TypeKey, "Enter configuration path manually")

  /** Folders searched after the application folder on Android, current revision. */
  const AndroidConfigFolders: seq<string> := [
    "/storage/emulated/0/Android/data/com.retroarch/",
    "/data/data/com.retroarch/",
    "/storage/sdcard0/Android/data/com.retroarch/",
    "/data/user/0/com.retroarch/",
    "/storage/emulated/0/Retroarch/"]

  /** The same list in the legacy revision, which lacks the last folder. */
  const LegacyAndroidConfigFolders: seq<string> := AndroidConfigFolders[..4]

  /** The recursive `.cfg` scan of the first folder with any match; empty when none has. */
  function FirstNonEmptyScan(fs: FileSystem, folders: seq<string>): (files: seq<string>)
    decreases |folders|
  {
    if folders == [] then []
    else
      var files := ScanTree(fs, folders[0], CfgMask);
      if |files| == 0 then FirstNonEmptyScan(fs, folders[1..]) else files
  }

  /** Each configuration file labelled with its base name without extension. */
  function ConfigEntries(files: seq<string>): (entries: seq<Entry>)
    ensures Keys(entries) == files
  {
    seq(|files|, i requires 0 <= i < |files| => Entry(files[i], BaseNoExt(files[i])))
  }

  /** The folders searched: the application folder, then on Android the well-known ones. */
  function ConfigFolders(p: Platform, application: string, androidFolders: seq<string>): seq<string> {
    [application] + (if p == Android then androidFolders else [])
  }

  /** The shared procedure; the revisions differ in their sentinels and Android folders. */
  function ListConfigs(sentinels: seq<Entry>, androidFolders: seq<string>, p: Platform, fs: FileSystem, settings: Settings)
    : (r: Result<seq<Entry>, Error>)
    ensures "application" !in settings ==> r == Failure(MissingKey("application"))
    ensures r.Success? ==> |sentinels| <= |r.value| && Keys(r.value)[..|sentinels|] == Keys(sentinels)
  {
    var application :- GetText(settings, "application");
    var entries := PutAll(sentinels, ConfigEntries(FirstNonEmptyScan(fs, ConfigFolders(p, application, androidFolders))));
    PutAllKeys(sentinels, ConfigEntries(FirstNonEmptyScan(fs, ConfigFolders(p, application, androidFolders))), TypeKey);
    Success(entries)
  }

  /** The current revision: `BROWSE` and `TYPE`, five Android folders. */
  function AvailableConfigurations(p: Platform, fs: FileSystem, settings: Settings): (r: Result<seq<Entry>, Error>)
    ensures r.Success? ==> |r.value| >= 2 && r.value[0].key == BrowseKey && r.value[1].key == TypeKey
  {
    var r := ListConfigs([BrowseConfig, TypeConfig], AndroidConfigFolders, p, fs, settings);
    if r.Success? then SentinelsLead(r.value, [BrowseConfig, TypeConfig]); r else r
  }

  /** The legacy revision: `BROWSE` only, four Android folders. */
  function LegacyAvailableConfigurations(p: Platform, fs: FileSystem, settings: Settings): (r: Result<seq<Entry>, Error>)
    ensures r.Success? ==> |r.value| >= 1 && r.value[0].key == BrowseKey
  {
    var r := ListConfigs([BrowseConfig], LegacyAndroidConfigFolders, p, fs, settings);
    if r.Success? then SentinelsLead(r.value, [BrowseConfig]); r else r
  }

  /** Entries whose keys open with the sentinels' keys hold those keys position by position. */
  lemma SentinelsLead(entries: seq<Entry>, sentinels: seq<Entry>)
    requires |sentinels| <= |entries| && Keys(entries)[..|sentinels|] == Keys(sentinels)
    ensures forall i :: 0 <= i < |sentinels| ==> entries[i].key == sentinels[i].key
  {
    forall i | 0 <= i < |sentinels|
      ensures entries[i].key == sentinels[i].key
    {
      assert Keys(entries)[..|sentinels|][i] == Keys(entries)[i];
    }
  }
}

/** What the configuration selection promises. */
module ConfigDiscoveryProperties {
  import opened Results
  import opened FileNames
  import opened Environment
  import opened OrderedMaps
  import opened CoreDiscovery
  import opened ConfigDiscovery

  /** The first folder with any match supplies the files; the folders after it are never
      consulted. */
  lemma {:induction false} FirstMatchWins(fs: FileSystem, folders: seq<string>, i: int)
    requires 0 <= i < |folders|
    requires ScanTree(fs, folders[i], CfgMask) != []
    requires forall j :: 0 <= j < i ==> ScanTree(fs, folders[j], CfgMask) == []
    ensures FirstNonEmptyScan(fs, folders) == ScanTree(fs, folders[i], CfgMask)
    decreases i
  {
    if i > 0 {
      assert ScanTree(fs, folders[0], CfgMask) == [];
      forall j | 0 <= j < i - 1
        ensures ScanTree(fs, folders[1..][j], CfgMask) == []
      {
        assert folders[1..][j] == folders[j + 1];
      }
      FirstMatchWins(fs, folders[1..], i - 1);
    }
  }

  /** No configuration file is listed exactly when no folder has a match. */
  lemma {:induction false} NoMatchAnywhere(fs: FileSystem, folders: seq<string>)
    ensures FirstNonEmptyScan(fs, folders) == [] <==> forall j :: 0 <= j < |folders| ==> ScanTree(fs, folders[j], CfgMask) == []
    decreases |folders|
  {
    if folders != [] {
      NoMatchAnywhere(fs, folders[1..]);
      assert forall j :: 0 <= j < |folders[1..]| ==> folders[1..][j] == folders[j + 1];
      if ScanTree(fs, folders[0], CfgMask) == [] {
        assert forall j :: 0 <= j < |folders| ==> j == 0 || folders[j] == folders[1..][j - 1];
      }
    }
  }

  /** Matches in the application folder hide every Android folder, so the platform makes
      no difference. */
  lemma ApplicationFolderFirst(p: Platform, androidFolders: seq<string>, sentinels: seq<Entry>, fs: FileSystem, settings: Settings)
    requires "application" in settings && settings["application"].Text?
    requires ScanTree(fs, settings["application"].text, CfgMask) != []
    ensures ListConfigs(sentinels, androidFolders, p, fs, settings) == ListConfigs(sentinels, androidFolders, Linux, fs, settings)
  {
    var application := settings["application"].text;
    FirstMatchWins(fs, ConfigFolders(p, application, androidFolders), 0);
    FirstMatchWins(fs, ConfigFolders(Linux, application, androidFolders), 0);
  }

  /** Distinct configuration files, none named like a sentinel, follow the sentinels in
      scan order, each labelled with its base name without extension. */
  lemma ConfigsAfterSentinels(sentinels: seq<Entry>, androidFolders: seq<string>, p: Platform, fs: FileSystem, settings: Settings)
    requires DistinctKeys(sentinels)
    requires "application" in settings && settings["application"].Text?
    requires NoDuplicates(FirstNonEmptyScan(fs, ConfigFolders(p, settings["application"].text, androidFolders)))
    requires forall f | f in FirstNonEmptyScan(fs, ConfigFolders(p, settings["application"].text, androidFolders)) :: f !in Keys(sentinels)
    ensures ListConfigs(sentinels, androidFolders, p, fs, settings)
         == Success(sentinels + ConfigEntries(FirstNonEmptyScan(fs, ConfigFolders(p, settings["application"].text, androidFolders))))
  {
    var files := FirstNonEmptyScan(fs, ConfigFolders(p, settings["application"].text, androidFolders));
    var entries := ConfigEntries(files);
    assert DistinctKeys(sentinels + entries) by {
      forall i, j | 0 <= i < j < |sentinels + entries|
        ensures (sentinels + entries)[i].key != (sentinels + entries)[j].key
      {
        if j >= |sentinels| {
          var f := files[j - |sentinels|];
          assert (sentinels + entries)[j].key == f by {
            assert Keys(entries)[j - |sentinels|] == f;
          }
          if i < |sentinels| {
            assert f in files && f !in Keys(sentinels);
            assert Keys(sentinels)[i] == sentinels[i].key;
          } else {
            assert Keys(entries)[i - |sentinels|] == files[i - |sentinels|];
          }
        }
      }
    }
    PutAllAppends(sentinels, entries);
  }

  /** The legacy selection searches the current revision's folders less the last and
      lists the same files after its single sentinel. */
  lemma LegacyMatchesCurrent(p: Platform, fs: FileSystem, settings: Settings)
    requires "application" in settings && settings["application"].Text?
    requires ScanTree(fs, "/storage/emulated/0/Retroarch/", CfgMask) == []
    requires NoDuplicates(FirstNonEmptyScan(fs, ConfigFolders(p, settings["application"].text, AndroidConfigFolders)))
    requires forall f | f in FirstNonEmptyScan(fs, ConfigFolders(p, settings["application"].text, AndroidConfigFolders)) :: f != BrowseKey && f != TypeKey
    ensures AvailableConfigurations(p, fs, settings).Success?
    ensures LegacyAvailableConfigurations(p, fs, settings).Success?
    ensures LegacyAvailableConfigurations(p, fs, settings).value[1..] == AvailableConfigurations(p, fs, settings).value[2..]
  {
    var files := FirstNonEmptyScan(fs, ConfigFolders(p, settings["application"].text, AndroidConfigFolders));
    LegacyScanSame(p, fs, settings["application"].text);
    CurrentListing(p, fs, settings);
    LegacyListing(p, fs, settings);
    assert ([BrowseConfig] + ConfigEntries(files))[1..] == ConfigEntries(files)
        == ([BrowseConfig, TypeConfig] + ConfigEntries(files))[2..];
  }

  /** Without a match in the folder only the current revision searches, both revisions'
      folder lists find the same files. */
  lemma LegacyScanSame(p: Platform, fs: FileSystem, application: string)
    requires ScanTree(fs, "/storage/emulated/0/Retroarch/", CfgMask) == []
    ensures FirstNonEmptyScan(fs, ConfigFolders(p, application, LegacyAndroidConfigFolders))
         == FirstNonEmptyScan(fs, ConfigFolders(p, application, AndroidConfigFolders))
  {
    var current := ConfigFolders(p, application, AndroidConfigFolders);
    var legacy := ConfigFolders(p, application, LegacyAndroidConfigFolders);
    ScanIgnoresEmptyLast(fs, legacy, AndroidConfigFolders[4]);
    if p == Android {
      assert current == legacy + [AndroidConfigFolders[4]];
    } else {
      assert current == legacy;
    }
  }

  /** The current selection is its two sentinels followed by the files found. */
  lemma CurrentListing(p: Platform, fs: FileSystem, settings: Settings)
    requires "application" in settings && settings["application"].Text?
    requires NoDuplicates(FirstNonEmptyScan(fs, ConfigFolders(p, settings["application"].text, AndroidConfigFolders)))
    requires forall f | f in FirstNonEmptyScan(fs, ConfigFolders(p, settings["application"].text, AndroidConfigFolders)) :: f != BrowseKey && f != TypeKey
    ensures AvailableConfigurations(p, fs, settings)
         == Success([BrowseConfig, TypeConfig] + ConfigEntries(FirstNonEmptyScan(fs, ConfigFolders(p, settings["application"].text, AndroidConfigFolders))))
  {
    assert Keys([BrowseConfig, TypeConfig]) == [BrowseKey, TypeKey];
    ConfigsAfterSentinels([BrowseConfig, TypeConfig], AndroidConfigFolders, p, fs, settings);
  }

  /** The legacy selection is its one sentinel followed by the files its folders find. */
  lemma LegacyListing(p: Platform, fs: FileSystem, settings: Settings)
    requires "application" in settings && settings["application"].Text?
    requires NoDuplicates(FirstNonEmptyScan(fs, ConfigFolders(p, settings["application"].text, LegacyAndroidConfigFolders)))
    requires forall f | f in FirstNonEmptyScan(fs, ConfigFolders(p, settings["application"].text, LegacyAndroidConfigFolders)) :: f != BrowseKey
    ensures LegacyAvailableConfigurations(p, fs, settings)
         == Success([BrowseConfig] + ConfigEntries(FirstNonEmptyScan(fs, ConfigFolders(p, settings["application"].text, LegacyAndroidConfigFolders))))
  {
    assert Keys([BrowseConfig]) == [BrowseKey];
    ConfigsAfterSentinels([BrowseConfig], LegacyAndroidConfigFolders, p, fs, settings);
  }

  /** A trailing folder without matches changes nothing. */
  lemma {:induction false} ScanIgnoresEmptyLast(fs: FileSystem, folders: seq<string>, last: string)
    requires ScanTree(fs, last, CfgMask) == []
    ensures FirstNonEmptyScan(fs, folders + [last]) == FirstNonEmptyScan(fs, folders)
    decreases |folders|
  {
    if folders == [] {
      assert FirstNonEmptyScan(fs, [last][1..]) == [];
    } else {
      assert (folders + [last])[1..] == folders[1..] + [last];
      ScanIgnoresEmptyLast(fs, folders[1..], last);
    }
  }
}
