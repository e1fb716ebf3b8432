/** Where the Retroarch application may live: `_builder_get_retroarch_app_folders` (current
    revision, a selection of every candidate) and `_builder_get_retroarch_app_folder`
    (legacy revision, a single choice). */
module AppFolders {
  import opened Results
  import opened FileNames
  import opened Environment
  import opened OrderedMaps
  import opened CoreDiscovery
  import opened ConfigDiscovery

  const BrowseApp: Entry := Entry(BrowseKey, "Browse for Retroarch path")
  const TypeApp: Entry := Entry(TypeKey, "Enter Retroarch path manually")

  /** Well-known install folders on Android, tried in this order by both revisions. The
      last one is written without a trailing separator. */
  const AndroidAppFolders: seq<string> := [
    "/storage/emulated/0/Android/data/com.retroarch/",
    "/data/data/com.retroarch/",
    "/storage/sdcard0/Android/data/com.retroarch/",
    "/data/user/0/com.retroarch"]

  /** The folder returned when nothing else is found, legacy revision. */
  const RootFolder: string := "/"

  /** The folders that exist, in order. */
  function Existing(fs: FileSystem, folders: seq<string>): (r: seq<string>)
    ensures forall f :: f in r <==> f in folders && Exists(fs, f)
    decreases |folders|
  {
    if folders == [] then []
    else
      var rest := Existing(fs, folders[1..]);
      assert forall f :: f in folders <==> f == folders[0] || f in folders[1..];
      if Exists(fs, folders[0]) then [folders[0]] + rest else rest
  }

  /** The configured Retroarch folder as a directory path, when set and present. */
  function Configured(fs: FileSystem, dir: string): (r: seq<string>)
    ensures |r| <= 1
    ensures r != [] <==> dir != "" && Exists(fs, AsDir(dir))
    ensures r != [] ==> r[0] == AsDir(dir)
  {
    if dir != "" && Exists(fs, AsDir(dir)) then [AsDir(dir)] else []
  }

  /** The candidate folders in the order they are assigned. */
  function Candidates(p: Platform, fs: FileSystem, execPath: string): seq<string> {
    Configured(fs, execPath) + (if p == Android then Existing(fs, AndroidAppFolders) else [])
  }

  /** Each path offered under its own text as caption. */
  function SelfLabelled(paths: seq<string>): (entries: seq<Entry>)
    ensures Keys(entries) == paths
    ensures forall i :: 0 <= i < |entries| ==> entries[i].caption == entries[i].key
  {
    seq(|paths|, i requires 0 <= i < |paths| => Entry(paths[i], paths[i]))
  }

  /** `_builder_get_retroarch_app_folders(item_key, launcher)`, with `execPath` the add-on's
      `retroarch_exec_path` setting. */
  function AppFolderPresets(p: Platform, fs: FileSystem, execPath: string): seq<Entry> {
    PutAll([BrowseApp, TypeApp], SelfLabelled(Candidates(p, fs, execPath)))
  }

  /** The first folder that exists, trying `folders` in order. */
  function FirstExisting(fs: FileSystem, folders: seq<string>): (r: Option<string>)
    ensures r.Some? ==> r.value in folders && Exists(fs, r.value)
    ensures r.None? <==> forall f | f in folders :: !Exists(fs, f)
    decreases |folders|
  {
    if folders == [] then None
    else if Exists(fs, folders[0]) then Some(folders[0])
    else FirstExisting(fs, folders[1..])
  }

  /** `_builder_get_retroarch_app_folder()`, with `systemDir` the add-on's
      `retroarch_system_dir` setting. */
  function LegacyAppFolder(p: Platform, fs: FileSystem, systemDir: string): (folder: string)
    ensures folder == RootFolder || Exists(fs, folder)
  {
    if systemDir != "" && Exists(fs, AsDir(systemDir)) then AsDir(systemDir)
    else if p == Android && FirstExisting(fs, AndroidAppFolders).Some? then FirstExisting(fs, AndroidAppFolders).value
    else RootFolder
  }
}

/** What the application-folder presets promise, and how the two revisions relate. */
module AppFoldersProperties {
  import opened Results
  import opened FileNames
  import opened Environment
  import opened OrderedMaps
  import opened CoreDiscovery
  import opened ConfigDiscovery
  import opened AppFolders

  /** No candidate folder is named like a sentinel: the configured one ends in a separator
      and the Android ones are fixed paths. */
  lemma CandidatesAreNotSentinels(p: Platform, fs: FileSystem, execPath: string)
    ensures BrowseKey !in Candidates(p, fs, execPath) && TypeKey !in Candidates(p, fs, execPath)
  {
    var c := Configured(fs, execPath);
    if c != [] {
      var d := AsDir(execPath);
      assert d[|d| - 1] == '/';
      assert BrowseKey[|BrowseKey| - 1] != '/' && TypeKey[|TypeKey| - 1] != '/';
    }
    assert BrowseKey !in AndroidAppFolders && TypeKey !in AndroidAppFolders;
  }

  /** The selection offers the two sentinels and exactly the candidate folders: the
      configured folder when it exists, and on Android every well-known folder that exists. */
  lemma PresetKeys(p: Platform, fs: FileSystem, execPath: string, k: string)
    ensures k in Keys(AppFolderPresets(p, fs, execPath)) <==>
              || k == BrowseKey || k == TypeKey
              || (execPath != "" && Exists(fs, AsDir(execPath)) && k == AsDir(execPath))
              || (p == Android && k in AndroidAppFolders && Exists(fs, k))
  {
    var candidates := Candidates(p, fs, execPath);
    PutAllKeys([BrowseApp, TypeApp], SelfLabelled(candidates), k);
    assert Keys([BrowseApp, TypeApp]) == [BrowseKey, TypeKey];
    assert k in candidates <==> k in Configured(fs, execPath) || (p == Android && k in Existing(fs, AndroidAppFolders));
  }

  /** The sentinels come first, unchanged, and every folder is captioned with its own path. */
  lemma PresetShape(p: Platform, fs: FileSystem, execPath: string, i: int)
    requires 0 <= i < |AppFolderPresets(p, fs, execPath)|
    ensures |AppFolderPresets(p, fs, execPath)| >= 2
    ensures AppFolderPresets(p, fs, execPath)[0] == BrowseApp && AppFolderPresets(p, fs, execPath)[1] == TypeApp
    ensures i >= 2 ==> AppFolderPresets(p, fs, execPath)[i].caption == AppFolderPresets(p, fs, execPath)[i].key
  {
    CandidatesAreNotSentinels(p, fs, execPath);
    SelfLabelledAfterSentinels(Candidates(p, fs, execPath), i);
  }

  lemma SelfLabelledAfterSentinels(candidates: seq<string>, i: int)
    requires BrowseKey !in candidates && TypeKey !in candidates
    requires 0 <= i < |PutAll([BrowseApp, TypeApp], SelfLabelled(candidates))|
    ensures |PutAll([BrowseApp, TypeApp], SelfLabelled(candidates))| >= 2
    ensures PutAll([BrowseApp, TypeApp], SelfLabelled(candidates))[0] == BrowseApp
    ensures PutAll([BrowseApp, TypeApp], SelfLabelled(candidates))[1] == TypeApp
    ensures i >= 2 ==>
              (PutAll([BrowseApp, TypeApp], SelfLabelled(candidates))[i].caption
               == PutAll([BrowseApp, TypeApp], SelfLabelled(candidates))[i].key)
  {
    var m := [BrowseApp, TypeApp];
    var entries := SelfLabelled(candidates);
    var r := PutAll(m, entries);
    PutAllKeepsUntouched(m, entries, 0);
    PutAllKeepsUntouched(m, entries, 1);
    if i >= 2 {
      assert r[i] in m || r[i] in entries by {
        PutAllEntriesFrom(m, entries, i);
      }
      assert r[i] != BrowseApp && r[i] != TypeApp by {
        assert Keys(r)[..2] == [BrowseKey, TypeKey] by {
          assert Keys(m) == [BrowseKey, TypeKey];
          PutAllKeepsKeys(m, entries);
        }
        PutAllDistinct(m, entries);
        assert Keys(r)[0] == r[0].key && Keys(r)[1] == r[1].key;
      }
      if r[i] in entries {
        var j :| 0 <= j < |entries| && entries[j] == r[i];
      }
    }
  }

  /** The first existing folder is the head of the existing ones. */
  lemma {:induction false} FirstExistingHead(fs: FileSystem, folders: seq<string>)
    ensures FirstExisting(fs, folders) == if Existing(fs, folders) == [] then None else Some(Existing(fs, folders)[0])
    decreases |folders|
  {
    if folders != [] {
      FirstExistingHead(fs, folders[1..]);
    }
  }

  /** The existing folders of a concatenation are those of each part, in order: the
      selection keeps the order of the well-known list. */
  lemma {:induction false} ExistingAppend(fs: FileSystem, a: seq<string>, b: seq<string>)
    ensures Existing(fs, a + b) == Existing(fs, a) + Existing(fs, b)
    decreases |a|
  {
    if a != [] {
      assert (a + b)[1..] == a[1..] + b;
      assert (a + b)[0] == a[0];
      ExistingAppend(fs, a[1..], b);
    } else {
      assert a + b == b;
    }
  }

  /** Filtering a list without repeats gives a list without repeats. */
  lemma {:induction false} ExistingDistinct(fs: FileSystem, folders: seq<string>)
    requires NoDuplicates(folders)
    ensures NoDuplicates(Existing(fs, folders))
    decreases |folders|
  {
    if folders != [] {
      assert NoDuplicates(folders[1..]) by {
        forall i, j | 0 <= i < j < |folders[1..]|
          ensures folders[1..][i] != folders[1..][j]
        {
          assert folders[1..][i] == folders[i + 1] && folders[1..][j] == folders[j + 1];
        }
      }
      ExistingDistinct(fs, folders[1..]);
      assert folders[0] !in folders[1..];
    }
  }

  /** `FirstExisting` returns the existing folder that no existing folder precedes. */
  lemma {:induction false} FirstExistingIsFirst(fs: FileSystem, folders: seq<string>)
    ensures FirstExisting(fs, folders).Some? ==>
              exists i | 0 <= i < |folders| :: folders[i] == FirstExisting(fs, folders).value
                                               && forall j | 0 <= j < i :: !Exists(fs, folders[j])
    decreases |folders|
  {
    if folders != [] && !Exists(fs, folders[0]) && FirstExisting(fs, folders[1..]).Some? {
      FirstExistingIsFirst(fs, folders[1..]);
      var k :| 0 <= k < |folders[1..]| && folders[1..][k] == FirstExisting(fs, folders[1..]).value
               && forall j | 0 <= j < k :: !Exists(fs, folders[1..][j]);
      assert folders[k + 1] == FirstExisting(fs, folders).value;
      forall j | 0 <= j < k + 1
        ensures !Exists(fs, folders[j])
      {
        if j > 0 {
          assert folders[j] == folders[1..][j - 1];
        }
      }
    }
  }

  /** A folder that exists with no existing folder before it is the one `FirstExisting`
      returns. */
  lemma {:induction false} FirstExistingAt(fs: FileSystem, folders: seq<string>, i: int)
    requires 0 <= i < |folders| && Exists(fs, folders[i])
    requires forall j | 0 <= j < i :: !Exists(fs, folders[j])
    ensures FirstExisting(fs, folders) == Some(folders[i])
    decreases i
  {
    if i > 0 {
      assert !Exists(fs, folders[0]);
      forall j | 0 <= j < i - 1
        ensures !Exists(fs, folders[1..][j])
      {
        assert folders[1..][j] == folders[j + 1];
      }
      FirstExistingAt(fs, folders[1..], i - 1);
    }
  }

  /** The legacy choice: the configured folder when it is set and exists; otherwise on
      Android the first well-known folder that exists, in list order; otherwise `/`. */
  lemma LegacyAppFolderOrder(p: Platform, fs: FileSystem, systemDir: string)
    ensures systemDir != "" && Exists(fs, AsDir(systemDir)) ==> LegacyAppFolder(p, fs, systemDir) == AsDir(systemDir)
    ensures !(systemDir != "" && Exists(fs, AsDir(systemDir)))
            && (p != Android || forall j | 0 <= j < |AndroidAppFolders| :: !Exists(fs, AndroidAppFolders[j])) ==>
              LegacyAppFolder(p, fs, systemDir) == RootFolder
    ensures forall i | 0 <= i < |AndroidAppFolders|
                       && p == Android && !(systemDir != "" && Exists(fs, AsDir(systemDir)))
                       && Exists(fs, AndroidAppFolders[i])
                       && (forall j | 0 <= j < i :: !Exists(fs, AndroidAppFolders[j])) ::
              LegacyAppFolder(p, fs, systemDir) == AndroidAppFolders[i]
  {
    forall i | 0 <= i < |AndroidAppFolders| && Exists(fs, AndroidAppFolders[i])
                       && (forall j | 0 <= j < i :: !Exists(fs, AndroidAppFolders[j]))
      ensures FirstExisting(fs, AndroidAppFolders) == Some(AndroidAppFolders[i])
    {
      FirstExistingAt(fs, AndroidAppFolders, i);
    }
  }

  /** When the configured folder is not also a well-known one, the current selection is the
      two sentinels followed by the candidates in order, each labelled with itself. */
  lemma PresetsListCandidates(p: Platform, fs: FileSystem, execPath: string)
    requires Configured(fs, execPath) == [] || AsDir(execPath) !in AndroidAppFolders
    ensures AppFolderPresets(p, fs, execPath) == [BrowseApp, TypeApp] + SelfLabelled(Candidates(p, fs, execPath))
  {
    CandidatesDistinct(p, fs, execPath);
    CandidatesAreNotSentinels(p, fs, execPath);
    SelfLabelledDistinct(Candidates(p, fs, execPath));
    PutAllAppends([BrowseApp, TypeApp], SelfLabelled(Candidates(p, fs, execPath)));
  }

  /** The candidates repeat no folder when the configured one is not a well-known one. */
  lemma CandidatesDistinct(p: Platform, fs: FileSystem, execPath: string)
    requires Configured(fs, execPath) == [] || AsDir(execPath) !in AndroidAppFolders
    ensures NoDuplicates(Candidates(p, fs, execPath))
  {
    var android := if p == Android then Existing(fs, AndroidAppFolders) else [];
    assert NoDuplicates(android) by {
      ExistingDistinct(fs, AndroidAppFolders);
    }
    assert forall f | f in android :: f in AndroidAppFolders;
    assert Candidates(p, fs, execPath) == Configured(fs, execPath) + android;
  }

  /** The sentinels followed by distinct, self-labelled folders not named like a sentinel
      have distinct keys. */
  lemma SelfLabelledDistinct(candidates: seq<string>)
    requires NoDuplicates(candidates)
    requires BrowseKey !in candidates && TypeKey !in candidates
    ensures DistinctKeys([BrowseApp, TypeApp] + SelfLabelled(candidates))
  {
    var m := [BrowseApp, TypeApp] + SelfLabelled(candidates);
    assert Keys(m) == [BrowseKey, TypeKey] + candidates;
    forall i, j | 0 <= i < j < |m|
      ensures m[i].key != m[j].key
    {
      assert m[i].key == Keys(m)[i] && m[j].key == Keys(m)[j];
    }
  }

  /** The legacy revision's single choice is the first candidate folder of the current
      revision, and the root folder when there is none. */
  lemma LegacyChoosesFirstCandidate(p: Platform, fs: FileSystem, dir: string)
    ensures LegacyAppFolder(p, fs, dir) == if Candidates(p, fs, dir) == [] then RootFolder else Candidates(p, fs, dir)[0]
  {
    FirstExistingHead(fs, AndroidAppFolders);
  }

  /** After the two sentinels come the candidates, the first of them at position 2. */
  lemma SentinelsThenCandidates(candidates: seq<string>)
    requires BrowseKey !in candidates && TypeKey !in candidates
    ensures |PutAll([BrowseApp, TypeApp], SelfLabelled(candidates))| == 2 <==> candidates == []
    ensures candidates != [] ==>
              |PutAll([BrowseApp, TypeApp], SelfLabelled(candidates))| > 2
              && PutAll([BrowseApp, TypeApp], SelfLabelled(candidates))[2].key == candidates[0]
  {
    var m := [BrowseApp, TypeApp];
    assert Keys(m) == [BrowseKey, TypeKey];
    if candidates != [] {
      var first := candidates[0];
      var entries := SelfLabelled(candidates);
      var m' := m + [Entry(first, first)];
      assert PutAll(m, entries) == PutAll(m', entries[1..]) by {
        assert entries[0] == Entry(first, first);
        assert Put(m, first, first) == m';
      }
      var keys := Keys(PutAll(m', entries[1..]));
      assert |m'| <= |keys| && keys[..3] == Keys(m') by {
        PutAllKeepsKeys(m', entries[1..]);
      }
      assert keys[2] == Keys(m')[2] == first;
    }
  }

  /** The legacy revision's single choice is the first folder the current revision offers
      after its sentinels, and the root folder when it offers none. */
  lemma LegacyChoosesFirstPreset(p: Platform, fs: FileSystem, dir: string)
    ensures |AppFolderPresets(p, fs, dir)| == 2 ==> LegacyAppFolder(p, fs, dir) == RootFolder
    ensures |AppFolderPresets(p, fs, dir)| > 2 ==> LegacyAppFolder(p, fs, dir) == AppFolderPresets(p, fs, dir)[2].key
  {
    CandidatesAreNotSentinels(p, fs, dir);
    SentinelsThenCandidates(Candidates(p, fs, dir));
    LegacyChoosesFirstCandidate(p, fs, dir);
  }
}
