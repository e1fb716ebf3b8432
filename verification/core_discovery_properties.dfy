/** What the core selection promises: when it can be built, which descriptors it offers,
    in which order, and how the two revisions' label rules relate. */
module CoreDiscoveryProperties {
  import opened Results
  import opened FileNames
  import opened Environment
  import opened Resolver
  import opened OrderedMaps
  import opened StableSort
  import opened CoreDiscovery

  /** A descriptor is offered exactly when it was scanned and passes the checks. */
  lemma {:induction false} OfferedMembers(listed: string -> bool, files: seq<string>, f: string)
    ensures f in Offered(listed, files) <==> f in files && listed(f)
    decreases |files|
  {
    if files != [] {
      OfferedMembers(listed, files[1..], f);
      assert files == [files[0]] + files[1..];
    }
  }

  /** Filtering a duplicate-free scan leaves it duplicate-free. */
  lemma {:induction false} OfferedNoDuplicates(listed: string -> bool, files: seq<string>)
    requires NoDuplicates(files)
    ensures NoDuplicates(Offered(listed, files))
    decreases |files|
  {
    if files != [] {
      var rest := files[1..];
      assert NoDuplicates(rest) by {
        forall i, j | 0 <= i < j < |rest|
          ensures rest[i] != rest[j]
        {
          assert rest[i] == files[i + 1] && rest[j] == files[j + 1];
        }
      }
      OfferedNoDuplicates(listed, rest);
      var tail := Offered(listed, rest);
      if listed(files[0]) {
        assert files[0] !in rest by {
          forall k | 0 <= k < |rest|
            ensures rest[k] != files[0]
          {
            assert rest[k] == files[k + 1];
          }
        }
        OfferedMembers(listed, rest, files[0]);
        forall i, j | 0 <= i < j < |[files[0]] + tail|
          ensures ([files[0]] + tail)[i] != ([files[0]] + tail)[j]
        {
          ConsIndex(files[0], tail, j);
          if i > 0 {
            ConsIndex(files[0], tail, i);
          }
        }
      }
    }
  }

  /** The loop completes exactly when every descriptor it reaches can be read and
      labelled. */
  lemma {:induction false} CollectSucceeds(describe: string -> Result<string, Error>, files: seq<string>, acc: seq<Entry>)
    ensures Collect(describe, files, acc).Success? <==> AllDescribed(describe, files)
    decreases |files|
  {
    if files != [] {
      var rest := files[1..];
      assert forall i :: 0 <= i < |rest| ==> rest[i] == files[i + 1];
      if describe(files[0]).Success? {
        CollectSucceeds(describe, rest, Put(acc, files[0], describe(files[0]).value));
        if AllDescribed(describe, rest) {
          forall i | 0 <= i < |files|
            ensures describe(files[i]).Success?
          {
            if i > 0 {
              assert files[i] == rest[i - 1];
            }
          }
        }
      }
    }
  }

  /** None of `files` is a key of `acc`. */
  predicate FreshKeys(files: seq<string>, acc: seq<Entry>) {
    forall i, j :: 0 <= i < |files| && 0 <= j < |acc| ==> files[i] != acc[j].key
  }

  /** One round of the loop when the first descriptor reads fine and its key is new. */
  lemma CollectStep(describe: string -> Result<string, Error>, files: seq<string>, acc: seq<Entry>)
    requires files != [] && describe(files[0]).Success?
    requires FreshKeys(files, acc)
    ensures Collect(describe, files, acc) == Collect(describe, files[1..], acc + [Entry(files[0], describe(files[0]).value)])
  {
    assert files[0] !in Keys(acc) by {
      forall j | 0 <= j < |acc|
        ensures Keys(acc)[j] != files[0]
      {
        assert files[0] != acc[j].key;
      }
    }
  }

  /** The keys still to come stay fresh after the first one is assigned. */
  lemma FreshAfterStep(files: seq<string>, acc: seq<Entry>, e: Entry)
    requires files != [] && e.key == files[0]
    requires NoDuplicates(files)
    requires FreshKeys(files, acc)
    ensures FreshKeys(files[1..], acc + [e])
    ensures NoDuplicates(files[1..])
  {
    var rest := files[1..];
    forall i, j | 0 <= i < |rest| && 0 <= j < |acc + [e]|
      ensures rest[i] != (acc + [e])[j].key
    {
      assert rest[i] == files[i + 1];
      if j < |acc| {
        assert (acc + [e])[j] == acc[j];
      }
    }
    forall i, j | 0 <= i < j < |rest|
      ensures rest[i] != rest[j]
    {
      assert rest[i] == files[i + 1] && rest[j] == files[j + 1];
    }
  }

  /** The reference listing of a non-empty sequence. */
  lemma ExpectedCons(describe: string -> Result<string, Error>, files: seq<string>)
    requires files != [] && AllDescribed(describe, files)
    ensures AllDescribed(describe, files[1..])
    ensures Expected(describe, files) == [Entry(files[0], describe(files[0]).value)] + Expected(describe, files[1..])
  {
    assert forall i :: 0 <= i < |files[1..]| ==> files[1..][i] == files[i + 1];
  }

  /** With distinct descriptors, the loop appends the reference listing to the dictionary
      it starts from. */
  lemma {:induction false} CollectMatchesExpected(describe: string -> Result<string, Error>, files: seq<string>, acc: seq<Entry>)
    requires NoDuplicates(files)
    requires FreshKeys(files, acc)
    requires AllDescribed(describe, files)
    ensures Collect(describe, files, acc) == Success(acc + Expected(describe, files))
    decreases |files|
  {
    if files == [] {
      assert acc + Expected(describe, files) == acc;
    } else {
      var e := Entry(files[0], describe(files[0]).value);
      var rest, acc' := files[1..], acc + [e];
      assert Collect(describe, files, acc) == Collect(describe, rest, acc') by {
        CollectStep(describe, files, acc);
      }
      assert NoDuplicates(rest) && FreshKeys(rest, acc') by {
        FreshAfterStep(files, acc, e);
      }
      assert AllDescribed(describe, rest) && Expected(describe, files) == [e] + Expected(describe, rest) by {
        ExpectedCons(describe, files);
      }
      CollectMatchesExpected(describe, rest, acc');
      AppendAssociates(acc, [e], Expected(describe, rest));
    }
  }

  lemma ConsIndex<T>(x: T, s: seq<T>, j: int)
    requires 1 <= j <= |s|
    ensures ([x] + s)[j] == s[j - 1]
  {
  }

  lemma AppendAssociates<T>(a: seq<T>, b: seq<T>, c: seq<T>)
    ensures (a + b) + c == a + (b + c)
  {
  }

  /** Distinct descriptors give distinct keys. */
  lemma ExpectedDistinct(describe: string -> Result<string, Error>, files: seq<string>)
    requires NoDuplicates(files)
    requires AllDescribed(describe, files)
    ensures DistinctKeys(Expected(describe, files))
  {
  }

  /** The core selection built from a scan: `BROWSE` first, then the offered descriptors
      with their labels, sorted by label. */
  lemma CatalogIsSortedListing(rule: LabelRule, p: Platform, fs: FileSystem, infoFolder: string, coresFolder: string)
    requires NoDuplicates(ScanFiles(fs, infoFolder, InfoMask))
    requires BrowseKey !in ScanFiles(fs, infoFolder, InfoMask)
    requires AllDescribed(Describer(rule, fs), Offered(Lister(p, fs, coresFolder), ScanFiles(fs, infoFolder, InfoMask)))
    ensures CatalogFromScan(rule, p, fs, infoFolder, coresFolder)
         == Success([BrowseCore] + SortByCaption(Expected(Describer(rule, fs), Offered(Lister(p, fs, coresFolder), ScanFiles(fs, infoFolder, InfoMask)))))
  {
    var describe := Describer(rule, fs);
    var offered := Offered(Lister(p, fs, coresFolder), ScanFiles(fs, infoFolder, InfoMask));
    var expected := Expected(describe, offered);
    OfferedCollected(describe, Lister(p, fs, coresFolder), ScanFiles(fs, infoFolder, InfoMask));
    SortedListingDistinct(describe, Lister(p, fs, coresFolder), ScanFiles(fs, infoFolder, InfoMask));
    PutAllAppends([BrowseCore], SortByCaption(expected));
  }

  /** The loop collects exactly the reference listing of a duplicate-free scan. */
  lemma OfferedCollected(describe: string -> Result<string, Error>, listed: string -> bool, scan: seq<string>)
    requires NoDuplicates(scan)
    requires AllDescribed(describe, Offered(listed, scan))
    ensures Collect(describe, Offered(listed, scan), []) == Success(Expected(describe, Offered(listed, scan)))
  {
    var offered := Offered(listed, scan);
    OfferedNoDuplicates(listed, scan);
    CollectMatchesExpected(describe, offered, []);
    assert [] + Expected(describe, offered) == Expected(describe, offered);
  }

  /** `BROWSE` followed by the sorted reference listing of a scan without duplicates and
      without a `BROWSE` file has distinct keys. */
  lemma SortedListingDistinct(describe: string -> Result<string, Error>, listed: string -> bool, scan: seq<string>)
    requires NoDuplicates(scan)
    requires BrowseKey !in scan
    requires AllDescribed(describe, Offered(listed, scan))
    ensures DistinctKeys([BrowseCore] + SortByCaption(Expected(describe, Offered(listed, scan))))
  {
    var offered := Offered(listed, scan);
    var expected := Expected(describe, offered);
    OfferedNoDuplicates(listed, scan);
    ExpectedDistinct(describe, offered);
    SortKeepsDistinct(expected);
    NoBrowseAfterSort(expected, scan, offered);
    DistinctCons(BrowseCore, SortByCaption(expected));
  }

  /** Sorting entries keyed by scanned paths brings in no `BROWSE` key. */
  lemma NoBrowseAfterSort(expected: seq<Entry>, scan: seq<string>, offered: seq<string>)
    requires BrowseKey !in scan
    requires forall i :: 0 <= i < |offered| ==> offered[i] in scan
    requires |expected| == |offered|
    requires forall i :: 0 <= i < |expected| ==> expected[i].key == offered[i]
    ensures forall x | x in SortByCaption(expected) :: x.key != BrowseCore.key
  {
    SortPermutes(expected);
    forall x | x in SortByCaption(expected)
      ensures x.key != BrowseCore.key
    {
      assert x in multiset(expected);
      var i :| 0 <= i < |expected| && expected[i] == x;
    }
  }

  /** After `BROWSE` the selection holds exactly the reference entries, ascending by label,
      with equal labels in scan order. */
  lemma CatalogOrder(rule: LabelRule, p: Platform, fs: FileSystem, infoFolder: string, coresFolder: string, caption: string)
    requires NoDuplicates(ScanFiles(fs, infoFolder, InfoMask))
    requires BrowseKey !in ScanFiles(fs, infoFolder, InfoMask)
    requires AllDescribed(Describer(rule, fs), Offered(Lister(p, fs, coresFolder), ScanFiles(fs, infoFolder, InfoMask)))
    ensures CatalogFromScan(rule, p, fs, infoFolder, coresFolder).Success?
    ensures var entries := CatalogFromScan(rule, p, fs, infoFolder, coresFolder).value;
            var expected := Expected(Describer(rule, fs), Offered(Lister(p, fs, coresFolder), ScanFiles(fs, infoFolder, InfoMask)));
            && SortedByCaption(entries[1..])
            && multiset(entries[1..]) == multiset(expected)
            && WithCaption(entries[1..], caption) == WithCaption(expected, caption)
  {
    var expected := Expected(Describer(rule, fs), Offered(Lister(p, fs, coresFolder), ScanFiles(fs, infoFolder, InfoMask)));
    CatalogIsSortedListing(rule, p, fs, infoFolder, coresFolder);
    assert ([BrowseCore] + SortByCaption(expected))[1..] == SortByCaption(expected);
    SortSorted(expected);
    SortPermutes(expected);
    SortStable(expected, caption);
  }

  /** Every entry after `BROWSE` is an offered descriptor with the label read from it. */
  lemma CatalogEntryOffered(rule: LabelRule, p: Platform, fs: FileSystem, infoFolder: string, coresFolder: string, i: int)
    requires NoDuplicates(ScanFiles(fs, infoFolder, InfoMask))
    requires BrowseKey !in ScanFiles(fs, infoFolder, InfoMask)
    requires AllDescribed(Describer(rule, fs), Offered(Lister(p, fs, coresFolder), ScanFiles(fs, infoFolder, InfoMask)))
    requires CatalogFromScan(rule, p, fs, infoFolder, coresFolder).Success?
    requires 1 <= i < |CatalogFromScan(rule, p, fs, infoFolder, coresFolder).value|
    ensures var e := CatalogFromScan(rule, p, fs, infoFolder, coresFolder).value[i];
            && e.key in Offered(Lister(p, fs, coresFolder), ScanFiles(fs, infoFolder, InfoMask))
            && Describe(rule, fs, e.key) == Success(e.caption)
  {
    var describe := Describer(rule, fs);
    var offered := Offered(Lister(p, fs, coresFolder), ScanFiles(fs, infoFolder, InfoMask));
    CatalogIsSortedListing(rule, p, fs, infoFolder, coresFolder);
    ListingEntryDescribed(describe, offered, i);
  }

  /** An entry after `BROWSE` in a listing is a described descriptor. */
  lemma ListingEntryDescribed(describe: string -> Result<string, Error>, files: seq<string>, i: int)
    requires AllDescribed(describe, files)
    requires 1 <= i <= |files|
    ensures var e := ([BrowseCore] + SortByCaption(Expected(describe, files)))[i];
            e.key in files && describe(e.key) == Success(e.caption)
  {
    var sorted := SortByCaption(Expected(describe, files));
    assert ([BrowseCore] + sorted)[i] == sorted[i - 1] by {
      ConsIndex(BrowseCore, sorted, i);
    }
    SortedEntryDescribed(describe, files, i - 1);
  }

  /** An entry of the sorted reference listing is a described descriptor. */
  lemma SortedEntryDescribed(describe: string -> Result<string, Error>, files: seq<string>, i: int)
    requires AllDescribed(describe, files)
    requires 0 <= i < |files|
    ensures SortByCaption(Expected(describe, files))[i].key in files
    ensures describe(SortByCaption(Expected(describe, files))[i].key) == Success(SortByCaption(Expected(describe, files))[i].caption)
  {
    var expected := Expected(describe, files);
    SortPermutes(expected);
    var e := SortByCaption(expected)[i];
    assert e in multiset(expected);
    var k :| 0 <= k < |expected| && expected[k] == e;
  }

  /** A key after `BROWSE` is a scanned descriptor that is not the template, whose binary is
      present off Android, and whose caption is the label read from it. */
  lemma CatalogEntryListed(rule: LabelRule, p: Platform, fs: FileSystem, infoFolder: string, coresFolder: string, i: int)
    requires NoDuplicates(ScanFiles(fs, infoFolder, InfoMask))
    requires BrowseKey !in ScanFiles(fs, infoFolder, InfoMask)
    requires AllDescribed(Describer(rule, fs), Offered(Lister(p, fs, coresFolder), ScanFiles(fs, infoFolder, InfoMask)))
    requires CatalogFromScan(rule, p, fs, infoFolder, coresFolder).Success?
    requires 1 <= i < |CatalogFromScan(rule, p, fs, infoFolder, coresFolder).value|
    ensures var e := CatalogFromScan(rule, p, fs, infoFolder, coresFolder).value[i];
            && e.key in ScanFiles(fs, infoFolder, InfoMask)
            && BaseNoExt(e.key) != TemplateDescriptor
            && (p != Android ==> Exists(fs, InfoToCore(p, e.key, coresFolder, CoreExtension(p))))
            && Describe(rule, fs, e.key) == Success(e.caption)
  {
    var e := CatalogFromScan(rule, p, fs, infoFolder, coresFolder).value[i];
    CatalogEntryOffered(rule, p, fs, infoFolder, coresFolder, i);
    OfferedMembers(Lister(p, fs, coresFolder), ScanFiles(fs, infoFolder, InfoMask), e.key);
  }

  /** On Android a descriptor is offered whatever the cores folder and the filesystem. */
  lemma AndroidSkipsBinaryCheck(fs: FileSystem, otherFs: FileSystem, coresFolder: string, otherFolder: string, info: string)
    ensures Listed(Android, fs, coresFolder, info) == Listed(Android, otherFs, otherFolder, info)
    ensures Listed(Android, fs, coresFolder, info) <==> BaseNoExt(info) != TemplateDescriptor
  {
  }

  /** Two readers that agree wherever the second succeeds fill the dictionary alike
      wherever the loop with the second completes. */
  lemma {:induction false} CollectReadersAgree(describe: string -> Result<string, Error>, narrower: string -> Result<string, Error>,
                                               files: seq<string>, acc: seq<Entry>)
    requires forall x :: narrower(x).Success? ==> describe(x) == narrower(x)
    requires Collect(narrower, files, acc).Success?
    ensures Collect(describe, files, acc) == Collect(narrower, files, acc)
    decreases |files|
  {
    if files != [] {
      CollectReadersAgree(describe, narrower, files[1..], Put(acc, files[0], narrower(files[0]).value));
    }
  }

  /** Where the legacy rule labels a descriptor, the current rule gives the same label. */
  lemma LabelRulesAgree(fs: FileSystem, info: string)
    requires Describe(DisplayNameOnly, fs, info).Success?
    ensures Describe(DisplayNameOrBase, fs, info) == Describe(DisplayNameOnly, fs, info)
  {
  }

  /** The legacy selection, wherever it can be built, equals the current one. */
  lemma RevisionsAgree(p: Platform, fs: FileSystem, settings: Settings)
    requires ListCores(DisplayNameOnly, p, fs, settings).Success?
    ensures ListCores(DisplayNameOrBase, p, fs, settings) == ListCores(DisplayNameOnly, p, fs, settings)
  {
    var config := settings["retro_config"].text;
    if Exists(fs, config) {
      var configuration := fs.properties[config];
      var infoFolder := ResolveSetting(configuration["libretro_info_path"], Head(config));
      var coresFolder := ResolveSetting(configuration["libretro_directory"], Head(config));
      if Exists(fs, infoFolder) {
        forall x | Describer(DisplayNameOnly, fs)(x).Success?
          ensures Describer(DisplayNameOrBase, fs)(x) == Describer(DisplayNameOnly, fs)(x)
        {
          LabelRulesAgree(fs, x);
        }
        CollectReadersAgree(Describer(DisplayNameOrBase, fs), Describer(DisplayNameOnly, fs),
                            Offered(Lister(p, fs, coresFolder), ScanFiles(fs, infoFolder, InfoMask)), []);
      }
    }
  }

  /** The selection is empty only with a notice saying which file or folder is missing. */
  lemma EmptyCatalogNotices(rule: LabelRule, p: Platform, fs: FileSystem, settings: Settings)
    requires ListCores(rule, p, fs, settings).Success?
    ensures var c := ListCores(rule, p, fs, settings).value;
            && (c.notice.Some? && c.notice.value.ConfigNotFound? ==>
                  settings["retro_config"] == Text(c.notice.value.config) && !Exists(fs, c.notice.value.config))
            && (c.notice.Some? && c.notice.value.InfoFolderNotFound? ==>
                  && Exists(fs, settings["retro_config"].text)
                  && HasFolderSettings(fs, settings["retro_config"].text)
                  && c.notice.value.folder == ConfiguredFolder(fs, settings["retro_config"].text, "libretro_info_path")
                  && !Exists(fs, c.notice.value.folder))
  {
  }

  /** The configuration file `config` was parsed and names both Retroarch folders. */
  predicate HasFolderSettings(fs: FileSystem, config: string) {
    config in fs.properties
    && "libretro_info_path" in fs.properties[config]
    && "libretro_directory" in fs.properties[config]
  }

  /** The folder the setting `key` of configuration file `config` names, resolved against
      the configuration's own folder. */
  function ConfiguredFolder(fs: FileSystem, config: string, key: string): string
    requires config in fs.properties && key in fs.properties[config]
  {
    ResolveSetting(fs.properties[config][key], Head(config))
  }

  /** An existing configuration file that cannot be read, or that lacks one of the two
      folder settings, raises; the info folder setting is looked up first. */
  lemma ListCoresConfigurationErrors(rule: LabelRule, p: Platform, fs: FileSystem, settings: Settings)
    requires GetText(settings, "retro_config").Success?
    requires Exists(fs, settings["retro_config"].text)
    ensures var config := settings["retro_config"].text;
            var r := ListCores(rule, p, fs, settings);
            && (config !in fs.properties ==> r == Failure(Unreadable(config)))
            && (config in fs.properties && "libretro_info_path" !in fs.properties[config] ==>
                  r == Failure(MissingKey("libretro_info_path")))
            && (config in fs.properties && "libretro_info_path" in fs.properties[config]
                && "libretro_directory" !in fs.properties[config] ==>
                  r == Failure(MissingKey("libretro_directory")))
  {
  }

  /** With a readable configuration naming both folders, a missing info folder gives the
      empty selection with its notice, and otherwise the selection is the scan of the info
      folder checked against the cores folder, both resolved from the configuration. */
  lemma ListCoresAtResolvedFolders(rule: LabelRule, p: Platform, fs: FileSystem, settings: Settings)
    requires GetText(settings, "retro_config").Success?
    requires Exists(fs, settings["retro_config"].text)
    requires HasFolderSettings(fs, settings["retro_config"].text)
    ensures var config := settings["retro_config"].text;
            var infoFolder := ConfiguredFolder(fs, config, "libretro_info_path");
            var coresFolder := ConfiguredFolder(fs, config, "libretro_directory");
            var r := ListCores(rule, p, fs, settings);
            && (!Exists(fs, infoFolder) ==> r == Success(CoreCatalog([], Some(InfoFolderNotFound(infoFolder)))))
            && (Exists(fs, infoFolder) ==> (r.Success? <==> CatalogFromScan(rule, p, fs, infoFolder, coresFolder).Success?))
            && (Exists(fs, infoFolder) && r.Success? ==>
                  r.value == CoreCatalog(CatalogFromScan(rule, p, fs, infoFolder, coresFolder).value, None))
  {
  }

  /** The whole selection, when the info folder exists and its scan meets the assumptions
      of `CatalogIsSortedListing`: `BROWSE`, then the offered descriptors of the resolved
      info folder with their labels, sorted by label, and no notice. */
  lemma ListCoresIsSortedListing(rule: LabelRule, p: Platform, fs: FileSystem, settings: Settings)
    requires GetText(settings, "retro_config").Success?
    requires Exists(fs, settings["retro_config"].text)
    requires HasFolderSettings(fs, settings["retro_config"].text)
    requires var infoFolder := ConfiguredFolder(fs, settings["retro_config"].text, "libretro_info_path");
             var coresFolder := ConfiguredFolder(fs, settings["retro_config"].text, "libretro_directory");
             && Exists(fs, infoFolder)
             && NoDuplicates(ScanFiles(fs, infoFolder, InfoMask))
             && BrowseKey !in ScanFiles(fs, infoFolder, InfoMask)
             && AllDescribed(Describer(rule, fs), Offered(Lister(p, fs, coresFolder), ScanFiles(fs, infoFolder, InfoMask)))
    ensures var infoFolder := ConfiguredFolder(fs, settings["retro_config"].text, "libretro_info_path");
            var coresFolder := ConfiguredFolder(fs, settings["retro_config"].text, "libretro_directory");
            ListCores(rule, p, fs, settings)
              == Success(CoreCatalog([BrowseCore] + SortByCaption(Expected(Describer(rule, fs),
                                       Offered(Lister(p, fs, coresFolder), ScanFiles(fs, infoFolder, InfoMask)))), None))
  {
    var config := settings["retro_config"].text;
    var infoFolder := ConfiguredFolder(fs, config, "libretro_info_path");
    var coresFolder := ConfiguredFolder(fs, config, "libretro_directory");
    CatalogIsSortedListing(rule, p, fs, infoFolder, coresFolder);
    ListCoresAtResolvedFolders(rule, p, fs, settings);
  }
}
