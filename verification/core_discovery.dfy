/** `_builder_get_available_retroarch_cores`: the selection of installed cores, found
    through their `.info` descriptors. Both revisions share the procedure and differ only
    in how a descriptor's label is chosen. */
module CoreDiscovery {
  import opened Results
  import opened FileNames
  import opened Environment
  import opened Resolver
  import opened OrderedMaps
  import opened StableSort

  /** The base name of the sample descriptor Retroarch ships, which describes no core. */
  const TemplateDescriptor: string := "00_example_libretro"

  const InfoMask: string := "*.info"

  const BrowseKey: string := "BROWSE"

  /** The sentinel that opens a non-empty core selection. */
  const BrowseCore: Entry := Entry(BrowseKey, "Manual enter path to core")

  /** How a descriptor's label is chosen: the current revision falls back to the base name
      when `display_name` is missing, the legacy revision raises `KeyError`. */
  datatype LabelRule = DisplayNameOrBase | DisplayNameOnly

  /** Why the selection came back empty; the launcher shows it as an error notification. */
  datatype Notice = ConfigNotFound(config: string) | InfoFolderNotFound(folder: string)

  datatype CoreCatalog = CoreCatalog(entries: seq<Entry>, notice: Option<Notice>)

  /** The label of a descriptor with parsed properties `props`. */
  function Label(rule: LabelRule, info: string, props: map<string, string>): (r: Result<string, Error>)
    ensures r.Success? <==> rule == DisplayNameOrBase || "display_name" in props
    ensures "display_name" in props ==> r == Success(props["display_name"])
    ensures "display_name" !in props && rule == DisplayNameOrBase ==> r == Success(BaseNoExt(info))
  {
    if "display_name" in props then Success(props["display_name"])
    else if rule == DisplayNameOrBase then Success(BaseNoExt(info))
    else Failure(MissingKey("display_name"))
  }

  /** Reading a descriptor and choosing its label. */
  function Describe(rule: LabelRule, fs: FileSystem, info: string): Result<string, Error> {
    var props :- ReadPropertyFile(fs, info);
    Label(rule, info, props)
  }

  /** Whether a scanned descriptor is offered: never the template, and off Android only
      when the binary it names is present. On Android the binaries sit in the
      application's private folder, so their presence is taken for granted. */
  predicate Listed(p: Platform, fs: FileSystem, coresFolder: string, info: string) {
    BaseNoExt(info) != TemplateDescriptor
    && (p == Android || Exists(fs, InfoToCore(p, info, coresFolder, CoreExtension(p))))
  }

  /** `Listed` for one platform, filesystem and cores folder, as the loop applies it. */
  function Lister(p: Platform, fs: FileSystem, coresFolder: string): string -> bool {
    info => Listed(p, fs, coresFolder, info)
  }

  /** The scanned descriptors the loop gets past its two `continue` checks (`listed`), in
      scan order. */
  function Offered(listed: string -> bool, files: seq<string>): (r: seq<string>)
    ensures |r| <= |files|
    ensures forall i :: 0 <= i < |r| ==> r[i] in files
    decreases |files|
  {
    if files == [] then []
    else if listed(files[0]) then [files[0]] + Offered(listed, files[1..])
    else Offered(listed, files[1..])
  }

  /** `Describe` for one label rule and filesystem, as the loop applies it. */
  function Describer(rule: LabelRule, fs: FileSystem): string -> Result<string, Error> {
    info => Describe(rule, fs, info)
  }

  /** The rest of the loop body for each offered descriptor: read it with `describe` and
      assign its label in the `cores` dictionary `acc`. The checks before it read nothing
      and raise nothing, so filtering first and then reading performs the same reads,
      assignments and errors in the same order. */
  function Collect(describe: string -> Result<string, Error>, files: seq<string>, acc: seq<Entry>): Result<seq<Entry>, Error>
    decreases |files|
  {
    if files == [] then Success(acc)
    else
      var caption :- describe(files[0]);
      Collect(describe, files[1..], Put(acc, files[0], caption))
  }

  /** Every descriptor in `files` can be read and labelled. */
  predicate AllDescribed(describe: string -> Result<string, Error>, files: seq<string>) {
    forall i :: 0 <= i < |files| ==> describe(files[i]).Success?
  }

  predicate NoDuplicates(files: seq<string>) {
    forall i, j :: 0 <= i < j < |files| ==> files[i] != files[j]
  }

  /** Reference: each descriptor with the label read from it, in order. */
  function Expected(describe: string -> Result<string, Error>, files: seq<string>): (r: seq<Entry>)
    requires AllDescribed(describe, files)
    ensures |r| == |files|
    ensures forall i :: 0 <= i < |r| ==> r[i].key == files[i] && describe(files[i]) == Success(r[i].caption)
  {
    seq(|files|, i requires 0 <= i < |files| && AllDescribed(describe, files) => Entry(files[i], describe(files[i]).value))
  }

  /** The selection built from the descriptors scanned in `infoFolder`. */
  function CatalogFromScan(rule: LabelRule, p: Platform, fs: FileSystem, infoFolder: string, coresFolder: string)
    : (r: Result<seq<Entry>, Error>)
    ensures r.Success? ==> |r.value| >= 1 && r.value[0].key == BrowseKey
  {
    var cores :- Collect(Describer(rule, fs), Offered(Lister(p, fs, coresFolder), ScanFiles(fs, infoFolder, InfoMask)), []);
    var entries := PutAll([BrowseCore], SortByCaption(cores));
    PutAllKeys([BrowseCore], SortByCaption(cores), BrowseKey);
    assert Keys(entries)[0] == Keys([BrowseCore])[0];
    Success(entries)
  }

  /** `_builder_get_available_retroarch_cores(item_key, launcher)`. */
  function ListCores(rule: LabelRule, p: Platform, fs: FileSystem, settings: Settings): (r: Result<CoreCatalog, Error>)
    ensures "retro_config" !in settings ==> r == Failure(MissingKey("retro_config"))
    ensures GetText(settings, "retro_config").Success? && !Exists(fs, settings["retro_config"].text) ==>
              r == Success(CoreCatalog([], Some(ConfigNotFound(settings["retro_config"].text))))
    ensures r.Success? ==> (r.value.entries == [] <==> r.value.notice.Some?)
    ensures r.Success? && r.value.entries != [] ==> r.value.entries[0].key == BrowseKey
  {
    var config :- GetText(settings, "retro_config");
    if !Exists(fs, config) then Success(CoreCatalog([], Some(ConfigNotFound(config))))
    else
      var configuration :- ReadPropertyFile(fs, config);
      var infoSetting :- Property(configuration, "libretro_info_path");
      var coresSetting :- Property(configuration, "libretro_directory");
      var infoFolder := ResolveSetting(infoSetting, Head(config));
      var coresFolder := ResolveSetting(coresSetting, Head(config));
      if !Exists(fs, infoFolder) then Success(CoreCatalog([], Some(InfoFolderNotFound(infoFolder))))
      else
        var entries :- CatalogFromScan(rule, p, fs, infoFolder, coresFolder);
        Success(CoreCatalog(entries, None))
  }
}
