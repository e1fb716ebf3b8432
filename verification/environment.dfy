/** What the launcher consumes from its surroundings: the platform it runs on, the
    launcher's settings map, and a read-only view of the filesystem. */
module Environment {
  import opened Results

  /** The operating system, as the host's `is_windows` / `is_linux` / `is_android`
      probes report it; the probes are taken to be mutually exclusive. */
  datatype Platform = Windows | Linux | Android | OtherOs

  /** Conditions under which the Python code raises instead of returning. */
  datatype Error =
    | MissingKey(key: string)       // KeyError on the settings or a property file
    | NotText(key: string)          // a setting that holds a section where text is expected
    | Unreadable(path: string)      // a property file the filesystem cannot supply
    | NoPathSegment(path: string)   // StopIteration: no non-empty '/'-separated segment

  /** A settings value: text, or a nested section such as `romcollection`. */
  datatype Value = Text(text: string) | Section(fields: map<string, string>)

  type Settings = map<string, Value>

  /** `settings[key]` where the caller uses the value as text. */
  function GetText(settings: Settings, key: string): (r: Result<string, Error>)
    ensures r.Success? <==> key in settings && settings[key].Text?
    ensures r.Success? ==> settings[key] == Text(r.value)
    ensures key !in settings ==> r == Failure(MissingKey(key))
  {
    if key !in settings then Failure(MissingKey(key))
    else match settings[key]
      case Text(t) => Success(t)
      case Section(_) => Failure(NotText(key))
  }

  /** The filesystem as the launcher observes it. A listing absent from the maps is empty. */
  datatype FileSystem = FileSystem(
    existing: set<string>,                        // paths for which `exists()` is true
    listings: map<(string, string), seq<string>>, // `scanFilesInPath(mask)` per (directory, mask)
    trees: map<(string, string), seq<string>>,    // `recursiveScanFilesInPath(mask)` per (directory, mask)
    properties: map<string, map<string, string>>) // `readPropertyFile()` per file

  predicate Exists(fs: FileSystem, path: string) {
    path in fs.existing
  }

  function ScanFiles(fs: FileSystem, dir: string, mask: string): seq<string> {
    if (dir, mask) in fs.listings then fs.listings[(dir, mask)] else []
  }

  function ScanTree(fs: FileSystem, dir: string, mask: string): seq<string> {
    if (dir, mask) in fs.trees then fs.trees[(dir, mask)] else []
  }

  function ReadPropertyFile(fs: FileSystem, path: string): (r: Result<map<string, string>, Error>)
    ensures r.Success? <==> path in fs.properties
  {
    if path in fs.properties then Success(fs.properties[path]) else Failure(Unreadable(path))
  }

  /** `properties[key]` on a parsed property file. */
  function Property(properties: map<string, string>, key: string): (r: Result<string, Error>)
    ensures r.Success? <==> key in properties
    ensures r.Success? ==> r.value == properties[key]
    ensures r.Failure? ==> r.error == MissingKey(key)
  {
    if key in properties then Success(properties[key]) else Failure(MissingKey(key))
  }
}
