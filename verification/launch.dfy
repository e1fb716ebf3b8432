/** How the launcher starts Retroarch: the application to execute and the arguments to
    pass, in the current revision (`get_application`, `get_arguments`) and the legacy one
    (`_launch_selectApplicationToUse`, `_launch_selectArgumentsToUse`,
    `_builder_get_default_retroarch_arguments`). */
module Launch {
  import opened Results
  import opened Strings
  import opened FileNames
  import opened Environment

  const WindowsExecutable: string := "retroarch.exe"

  /** The Android activity both revisions start. */
  const ActivityClass: string := "com.retroarch.browser.retroactivity.RetroActivityFuture"
  const MainAction: string := "android.intent.action.MAIN"
  const LauncherCategory: string := "android.intent.category.LAUNCHER"

  /** The intent flags, written in decimal as the launcher passes them. */
  const LaunchFlags: string := "270532608"

  /** Android's `FLAG_ACTIVITY_NEW_TASK` and `FLAG_ACTIVITY_RESET_TASK_IF_NEEDED`. */
  const FlagActivityNewTask: bv32 := 0x1000_0000
  const FlagActivityResetTaskIfNeeded: bv32 := 0x0020_0000

  /** The placeholder the launch machinery replaces with the ROM path. */
  const RomPlaceholder: string := "$rom$"

  /** The last non-empty piece, scanning from the end: `next(s for s in reversed(parts) if s)`. */
  function LastNonEmpty(parts: seq<string>): (r: Option<string>)
    ensures r.Some? ==> r.value != [] && r.value in parts
    decreases |parts|
  {
    if parts == [] then None
    else if parts[|parts| - 1] != [] then Some(parts[|parts| - 1])
    else LastNonEmpty(parts[..|parts| - 1])
  }

  /** The Android package named by an application folder: its last non-empty
      '/'-separated segment. A path of separators only raises `StopIteration`. */
  function PackageName(path: string): (r: Result<string, Error>)
    ensures r.Failure? ==> r.error == NoPathSegment(path)
  {
    match LastNonEmpty(Split(path, '/'))
    case None => Failure(NoPathSegment(path))
    case Some(segment) => Success(segment)
  }

  /** Reference for `PackageName`: the path without its trailing separators. */
  function TrimSeparators(path: string): (r: string)
    ensures r <= path
    ensures r == [] || r[|r| - 1] != '/'
    ensures forall i :: |r| <= i < |path| ==> path[i] == '/'
    decreases |path|
  {
    if path != [] && path[|path| - 1] == '/' then TrimSeparators(path[..|path| - 1]) else path
  }

  /** The text between `prefix` and `suffix`, when `text` has that shape. */
  function Between(prefix: string, suffix: string, text: string): Option<string> {
    if |prefix| + |suffix| <= |text| && StartsWith(text, prefix) && EndsWith(text, suffix)
    then Some(text[|prefix|..|text| - |suffix|])
    else None
  }

  /** `Between` recovers what was wrapped. */
  lemma BetweenWrapped(prefix: string, value: string, suffix: string)
    ensures Between(prefix, suffix, prefix + value + suffix) == Some(value)
  {
    var text := prefix + value + suffix;
    assert text[..|prefix|] == prefix;
    assert text[|text| - |suffix|..] == suffix;
    assert text[|prefix|..|text| - |suffix|] == value;
  }

  /** `Between` with no suffix recovers what follows the prefix. */
  lemma BetweenPrefixed(prefix: string, value: string)
    ensures Between(prefix, "", prefix + value) == Some(value)
  {
    BetweenWrapped(prefix, value, "");
    assert prefix + value + "" == prefix + value;
  }

  /** `get_application()`, current revision. On Linux the source returns the `FileName`
      object itself; here its path. */
  function GetApplication(p: Platform, settings: Settings): (r: Result<string, Error>)
    ensures p == OtherOs ==> r == Success("")
    ensures p != OtherOs && "application" !in settings ==> r == Failure(MissingKey("application"))
    ensures p != OtherOs ==> (r.Success? ==> "application" in settings && settings["application"].Text?)
    ensures p == Windows && r.Success? ==> r.value == settings["application"].text + WindowsExecutable
    ensures p == Android && r.Success? ==> r.value != [] && r.value in Split(settings["application"].text, '/')
  {
    match p
    case Windows =>
      var application :- GetText(settings, "application");
      Success(application + WindowsExecutable)
    case Android =>
      var application :- GetText(settings, "application");
      PackageName(application)
    case Linux => GetText(settings, "application")
    case OtherOs => Success("")
  }

  /** The keyword arguments set for an Android launch, in addition to those given. */
  function AndroidIntent(kwargs: map<string, string>): map<string, string> {
    kwargs["intent" := MainAction]["category" := LauncherCategory]["flags" := LaunchFlags]["className" := ActivityClass]
  }

  /** `get_arguments(*args, **kwargs)`, current revision, up to the call into the base
      class; the pair is the positional list and the keyword map. */
  function GetArguments(p: Platform, settings: Settings, args: seq<string>, kwargs: map<string, string>)
    : (r: Result<(seq<string>, map<string, string>), Error>)
    ensures r.Success? ==> args <= r.value.0
    ensures p == OtherOs ==> r == Success((args, kwargs))
    ensures p != OtherOs ==>
              (r.Success? <==> GetText(settings, "retro_core").Success? && GetText(settings, "retro_config").Success?)
    ensures (p == Windows || p == Linux) && r.Success? ==>
              && |r.value.0| == |args| + 3
              && Between("-L \"", "\"", r.value.0[|args|]) == Some(settings["retro_core"].text)
              && Between("-c \"", "\"", r.value.0[|args| + 1]) == Some(settings["retro_config"].text)
              && Between("\"", "\"", r.value.0[|args| + 2]) == Some(RomPlaceholder)
              && r.value.1 == kwargs
    ensures p == Android && r.Success? ==>
              && |r.value.0| == |args| + 4
              && Between("ROM ", "", r.value.0[|args|]) == Some(RomPlaceholder)
              && Between("LIBRETRO ", "", r.value.0[|args| + 1]) == Some(settings["retro_core"].text)
              && Between("CONFIGFILE ", "", r.value.0[|args| + 2]) == Some(settings["retro_config"].text)
              && r.value.0[|args| + 3] == "REFRESH 60"
              && r.value.1.Keys == kwargs.Keys + {"intent", "category", "flags", "className"}
              && r.value.1["intent"] == MainAction && r.value.1["category"] == LauncherCategory
              && r.value.1["flags"] == LaunchFlags && r.value.1["className"] == ActivityClass
              && (forall k | k in kwargs && k !in {"intent", "category", "flags", "className"} :: r.value.1[k] == kwargs[k])
  {
    match p
    case Windows | Linux =>
      var core :- GetText(settings, "retro_core");
      var config :- GetText(settings, "retro_config");
      BetweenWrapped("-L \"", core, "\"");
      BetweenWrapped("-c \"", config, "\"");
      BetweenWrapped("\"", RomPlaceholder, "\"");
      Success((args + ["-L \"" + core + "\"", "-c \"" + config + "\"", "\"" + RomPlaceholder + "\""], kwargs))
    case Android =>
      var core :- GetText(settings, "retro_core");
      var config :- GetText(settings, "retro_config");
      BetweenPrefixed("ROM ", RomPlaceholder);
      BetweenPrefixed("LIBRETRO ", core);
      BetweenPrefixed("CONFIGFILE ", config);
      Success((args + ["ROM " + RomPlaceholder, "LIBRETRO " + core, "CONFIGFILE " + config, "REFRESH 60"], AndroidIntent(kwargs)))
    case OtherOs => Success((args, kwargs))
  }

  /** The program the legacy revision runs on Android. */
  const ActivityManager: string := "/system/bin/am"

  const LegacyDesktopArguments: string := "-L \"$retro_core$\" " + "-c \"$retro_config$\" " + "\"$rom$\""

  /** The legacy Android command up to the component. */
  const AndroidStart: string := "start --user 0 -a android.intent.action.MAIN -c android.intent.category.LAUNCHER "

  const LegacyAndroidExtras: string := "-e ROM '$rom$' -e LIBRETRO $retro_core$ -e CONFIGFILE $retro_config$ "

  /** `_builder_get_default_retroarch_arguments()`: the `args` a new legacy launcher starts with. */
  function LegacyDefaultArguments(p: Platform): (args: string)
    ensures args != [] <==> p == Android
  {
    if p == Android then "-e IME com.android.inputmethod.latin/.LatinIME -e REFRESH 60" else ""
  }

  /** `_launch_selectApplicationToUse()`: the returned flag and the application set. */
  function LegacySelectApplication(p: Platform, settings: Settings): (r: Result<(bool, string), Error>)
    ensures r.Success? && r.value.0 <==> p == Android || (p == Windows && GetText(settings, "application").Success?)
    ensures r.Success? && !r.value.0 ==> r.value.1 == ""
    ensures p == Windows && r.Success? ==>
              GetText(settings, "application").Success? && r.value.1 == settings["application"].text + WindowsExecutable
  {
    match p
    case Windows =>
      var application :- GetText(settings, "application");
      Success((true, application + WindowsExecutable))
    case Android => Success((true, ActivityManager))
    case _ => Success((false, ""))
  }

  /** `_launch_selectArgumentsToUse()`: `Some(arguments)` when it returns true; `None` when it
      returns false and leaves the arguments as they were. */
  function LegacySelectArguments(p: Platform, settings: Settings): (r: Result<Option<string>, Error>)
    ensures p == OtherOs ==> r == Success(None)
    ensures (p == Windows || p == Linux) ==>
              (r.Success? <==> GetText(settings, "args").Success?)
    ensures (p == Windows || p == Linux) && r.Success? ==>
              r.value.Some? && StartsWith(r.value.value, LegacyDesktopArguments)
              && r.value.value[|LegacyDesktopArguments|..] == settings["args"].text
    ensures p == Android && "args" !in settings ==> (r.Success? <==> GetApplication(Android, settings).Success?)
    ensures p == Android && r.Success? ==>
              && GetText(settings, "application").Success?
              && ("args" in settings ==> GetText(settings, "args").Success?)
              && PackageName(settings["application"].text).Success?
              && r.value == Some(AndroidStart + "-n " + PackageName(settings["application"].text).value + "/" + ActivityClass + " "
                                 + LegacyAndroidExtras + (if "args" in settings then settings["args"].text else ""))
  {
    match p
    case Windows | Linux =>
      var extra :- GetText(settings, "args");
      Success(Some(LegacyDesktopArguments + extra))
    case Android =>
      var application :- GetText(settings, "application");
      var package :- PackageName(application);
      var extra :- if "args" in settings then GetText(settings, "args") else Success("");
      Success(Some(AndroidStart + "-n " + package + "/" + ActivityClass + " " + LegacyAndroidExtras + extra))
    case OtherOs => Success(None)
  }
}

/** What the launch arguments promise, and how the two revisions relate. */
module LaunchProperties {
  import opened Results
  import opened Strings
  import opened FileNames
  import opened Environment
  import opened Launch

  /** Dropping an empty last piece does not change the last non-empty one. */
  lemma LastNonEmptySkipsEmpty(parts: seq<string>)
    ensures LastNonEmpty(parts + [[]]) == LastNonEmpty(parts)
  {
    assert (parts + [[]])[..|parts|] == parts;
  }

  /** The package is the last component of the path once its trailing separators are
      dropped; there is none exactly when the path consists of separators. */
  lemma {:induction false} PackageNameIsTrimmedBase(path: string)
    ensures PackageName(path) ==
              if TrimSeparators(path) == [] then Failure(NoPathSegment(path))
              else Success(Base(TrimSeparators(path)))
    decreases |path|
  {
    assert LastNonEmpty(Split(path, '/')) ==
             if TrimSeparators(path) == [] then None else Some(Base(TrimSeparators(path))) by {
      LastNonEmptyOfSplit(path);
    }
  }

  lemma {:induction false} LastNonEmptyOfSplit(path: string)
    ensures LastNonEmpty(Split(path, '/')) ==
              if TrimSeparators(path) == [] then None else Some(Base(TrimSeparators(path)))
    decreases |path|
  {
    if path == [] {
    } else if path[|path| - 1] == '/' {
      var init := path[..|path| - 1];
      LastNonEmptyOfSplit(init);
      LastNonEmptySkipsEmpty(Split(init, '/'));
    } else {
      SplitLast(path, '/');
      assert LastIndex(path, '/') < |path| - 1;
      assert Base(path) != [];
    }
  }

  /** The package named by a folder path `dir/name/` is `name`. */
  lemma PackageNameOfFolder(dir: string, name: string)
    requires name != [] && '/' !in name
    ensures PackageName(dir + "/" + name + "/") == Success(name)
  {
    var path := dir + "/" + name + "/";
    assert path[..|path| - 1] == dir + "/" + name;
    assert TrimSeparators(path) == dir + "/" + name by {
      assert (dir + "/" + name)[|dir + "/" + name| - 1] == name[|name| - 1];
    }
    assert Base(dir + "/" + name) == name by {
      BaseAfterHead(dir + "/", name);
    }
    PackageNameIsTrimmedBase(path);
  }

  /** The application folder of the Android launch test names the package `com.retroarch`. */
  lemma PackageNameExample()
    ensures PackageName("/storage/emulated/0/Android/data/com.retroarch/") == Success("com.retroarch")
  {
    PackageNameOfFolder("/storage/emulated/0/Android/data", "com.retroarch");
    assert "/storage/emulated/0/Android/data" + "/" + "com.retroarch" + "/" == "/storage/emulated/0/Android/data/com.retroarch/";
  }

  /** The value of a decimal numeral; a character other than a digit counts as 0. */
  function DecimalValue(digits: string): nat
    decreases |digits|
  {
    if digits == [] then 0
    else
      var d := digits[|digits| - 1] as int - '0' as int;
      DecimalValue(digits[..|digits| - 1]) * 10 + (if 0 <= d <= 9 then d else 0)
  }

  /** The decimal flags passed to Android are `FLAG_ACTIVITY_NEW_TASK | FLAG_ACTIVITY_RESET_TASK_IF_NEEDED`. */
  lemma LaunchFlagsMeaning()
    ensures DecimalValue(LaunchFlags) == (FlagActivityNewTask | FlagActivityResetTaskIfNeeded) as int
  {
    assert (FlagActivityNewTask | FlagActivityResetTaskIfNeeded) as int == 270532608;
    assert DecimalValue("2") == 2;
    assert DecimalValue("27") == 27 by { assert "27"[..1] == "2"; }
    assert DecimalValue("270") == 270 by { assert "270"[..2] == "27"; }
    assert DecimalValue("2705") == 2705 by { assert "2705"[..3] == "270"; }
    assert DecimalValue("27053") == 27053 by { assert "27053"[..4] == "2705"; }
    assert DecimalValue("270532") == 270532 by { assert "270532"[..5] == "27053"; }
    assert DecimalValue("2705326") == 2705326 by { assert "2705326"[..6] == "270532"; }
    assert DecimalValue("27053260") == 27053260 by { assert "27053260"[..7] == "2705326"; }
    assert DecimalValue("270532608") == 270532608 by { assert "270532608"[..8] == "27053260"; }
  }

  /** Words joined by single spaces. */
  function JoinWords(words: seq<string>): string
    decreases |words|
  {
    if words == [] then ""
    else if |words| == 1 then words[0]
    else words[0] + " " + JoinWords(words[1..])
  }

  /** The desktop arguments with placeholders, joined, are the legacy template. */
  lemma DesktopWordsJoined()
    ensures JoinWords(["-L \"" + "$retro_core$" + "\"", "-c \"" + "$retro_config$" + "\"", "\"" + RomPlaceholder + "\""])
         == LegacyDesktopArguments
  {
    var words := ["-L \"" + "$retro_core$" + "\"", "-c \"" + "$retro_config$" + "\"", "\"" + RomPlaceholder + "\""];
    assert JoinWords(words[2..]) == words[2];
    assert JoinWords(words[1..]) == words[1] + " " + words[2];
    assert JoinWords(words) == (words[0] + " ") + (words[1] + " ") + words[2];
    assert words[0] + " " == "-L \"$retro_core$\" ";
    assert words[1] + " " == "-c \"$retro_config$\" ";
    assert words[2] == "\"$rom$\"";
  }

  /** The legacy desktop argument string is the current revision's argument list, with
      the core and configuration left as placeholders, joined by spaces and followed by
      the user's arguments. */
  lemma LegacyDesktopArgumentsMatchCurrent(p: Platform, settings: Settings, kwargs: map<string, string>)
    requires p == Windows || p == Linux
    requires GetText(settings, "args").Success?
    ensures var placeholders := settings["retro_core" := Text("$retro_core$")]["retro_config" := Text("$retro_config$")];
            && GetArguments(p, placeholders, [], kwargs).Success?
            && LegacySelectArguments(p, settings)
               == Success(Some(JoinWords(GetArguments(p, placeholders, [], kwargs).value.0) + settings["args"].text))
  {
    var placeholders := settings["retro_core" := Text("$retro_core$")]["retro_config" := Text("$retro_config$")];
    assert GetText(placeholders, "retro_core") == Success("$retro_core$");
    assert GetText(placeholders, "retro_config") == Success("$retro_config$");
    var words := GetArguments(p, placeholders, [], kwargs).value.0;
    assert words == ["-L \"" + "$retro_core$" + "\"", "-c \"" + "$retro_config$" + "\"", "\"" + RomPlaceholder + "\""];
    assert JoinWords(words) == LegacyDesktopArguments by {
      DesktopWordsJoined();
    }
  }

  /** The legacy Android command starts the same activity, in the same package, as the
      current revision's application and `className` keyword. */
  lemma LegacyAndroidMatchesCurrent(settings: Settings, args: seq<string>, kwargs: map<string, string>)
    requires LegacySelectArguments(Android, settings).Success?
    requires GetArguments(Android, settings, args, kwargs).Success?
    ensures GetApplication(Android, settings).Success?
    ensures StartsWith(LegacySelectArguments(Android, settings).value.value,
                       AndroidStart + "-n " + GetApplication(Android, settings).value + "/"
                       + GetArguments(Android, settings, args, kwargs).value.1["className"] + " ")
  {
  }

  /** Where the revisions agree on the application: the same executable on Windows; on
      Android the legacy revision runs the activity manager where the current one names
      the package, and on Linux only the current revision has an application. */
  lemma ApplicationRevisions(p: Platform, settings: Settings)
    ensures p == Windows ==>
              (GetApplication(p, settings).Success? <==> LegacySelectApplication(p, settings).Success?)
              && (GetApplication(p, settings).Success? ==>
                    LegacySelectApplication(p, settings).value == (true, GetApplication(p, settings).value))
    ensures p == Android ==> LegacySelectApplication(p, settings) == Success((true, ActivityManager))
    ensures p == Linux ==> LegacySelectApplication(p, settings) == Success((false, ""))
  {
  }

  /** The Android launch test, before placeholder substitution: its application folder
      gives `/system/bin/am` started on the `com.retroarch` package's activity. */
  lemma LegacyAndroidTestExample(settings: Settings)
    requires "application" in settings && settings["application"] == Text("/storage/emulated/0/Android/data/com.retroarch/")
    requires "args" !in settings
    ensures LegacySelectApplication(Android, settings) == Success((true, "/system/bin/am"))
    ensures LegacySelectArguments(Android, settings)
         == Success(Some(AndroidStart + "-n com.retroarch/" + ActivityClass + " " + LegacyAndroidExtras))
  {
    PackageNameExample();
    var built := AndroidStart + "-n " + "com.retroarch" + "/" + ActivityClass + " " + LegacyAndroidExtras + "";
    assert LegacySelectArguments(Android, settings) == Success(Some(built));
    var head := AndroidStart + "-n " + "com.retroarch" + "/";
    assert head == AndroidStart + "-n com.retroarch/";
    var expected := AndroidStart + "-n com.retroarch/" + ActivityClass + " " + LegacyAndroidExtras;
    assert built == head + ActivityClass + " " + LegacyAndroidExtras + "";
    assert built == expected;
    assert LegacySelectArguments(Android, settings) == Success(Some(expected));
  }
}
