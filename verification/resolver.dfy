/** The launcher's path helpers: relating a core's `.info` descriptor to its binary, and
    resolving Retroarch's config-relative directory settings. Both revisions of the
    launcher define these identically. */
module Resolver {
  import opened Strings
  import opened FileNames
  import opened Environment

  /** The marker Retroarch writes before a directory setting relative to the config file. */
  const RelativeMarker: string := ":\\"

  /** The marker inserted before the extension of an Android core binary. */
  const AndroidMarker: string := "_android"

  /** File extension of a core binary. */
  function CoreExtension(p: Platform): (ext: string)
    ensures ext == "dll" <==> p == Windows
    ensures ext != [] && '.' !in ext && '/' !in ext
  {
    if p == Windows then "dll" else "so"
  }

  /** `_create_path_from_retroarch_setting`. */
  function ResolveSetting(value: string, parentDir: string): (dir: string)
    ensures dir != [] && IsHead(dir)
  {
    if StartsWith(value, RelativeMarker) then AsDir(Join(parentDir, value[2..]))
    else AsDir(value)
  }

  /** `_switch_info_to_core_file`. */
  function InfoToCore(p: Platform, info: string, coresFolder: string, ext: string): string {
    var base := Base(ChangeExtension(info, ext));
    if p == Android then Join(coresFolder, Replace(base, ".", AndroidMarker + "."))
    else Join(coresFolder, base)
  }

  /** `_switch_core_to_info_file`. */
  function CoreToInfo(p: Platform, core: string, infoFolder: string): string {
    var base := Base(ChangeExtension(core, "info"));
    if p == Android then Join(infoFolder, Replace(base, AndroidMarker, ""))
    else Join(infoFolder, base)
  }
}

/** What the path helpers promise: their shape on each platform, the round trip between
    descriptor and binary, and the examples the launcher's documentation and tests give. */
module ResolverProperties {
  import opened Strings
  import opened FileNames
  import opened Environment
  import opened Resolver

  /** A marker-relative setting names the same folder as its text joined under the
      config's directory would, written out in full. */
  lemma {:induction false} MarkerMeansRelative(rel: string, parentDir: string, otherParent: string)
    requires !StartsWith(Join(parentDir, rel), RelativeMarker)
    ensures ResolveSetting(RelativeMarker + rel, parentDir) == ResolveSetting(Join(parentDir, rel), otherParent)
  {
    assert (RelativeMarker + rel)[..2] == RelativeMarker;
    assert (RelativeMarker + rel)[2..] == rel;
  }

  /** A setting without the marker is a directory path used as it stands. */
  lemma {:induction false} UnmarkedSettingIsAbsolute(value: string, parentDir: string, otherParent: string)
    requires !StartsWith(value, RelativeMarker)
    ensures ResolveSetting(value, parentDir) == ResolveSetting(value, otherParent)
    ensures IsHead(value) && value != [] ==> ResolveSetting(value, parentDir) == value
  {
  }

  /** `:\cores` against `/opt/retroarch/` resolves to `/opt/retroarch/cores/`. */
  lemma {:induction false} ResolveSettingExample()
    ensures ResolveSetting(":\\cores", "/opt/retroarch/") == "/opt/retroarch/cores/"
  {
    assert ":\\cores"[..2] == RelativeMarker;
    assert ":\\cores"[2..] == "cores";
  }

  /** Off Android the binary keeps the descriptor's stem and only gains the core extension. */
  lemma {:induction false} InfoToCoreOffAndroid(p: Platform, info: string, coresFolder: string, ext: string)
    requires p != Android
    requires '/' !in ext
    ensures InfoToCore(p, info, coresFolder, ext) == Join(coresFolder, BaseNoExt(info) + "." + ext)
  {
    var base := Base(ChangeExtension(info, ext));
    assert InfoToCore(p, info, coresFolder, ext) == Join(coresFolder, base);
    ChangeExtensionBase(info, ext);
  }

  /** Marking the dots of `stem.ext` marks those of the stem and the one before `ext`. */
  lemma {:induction false} MarkDots(stem: string, ext: string)
    requires '.' !in ext
    ensures Replace(stem + "." + ext, ".", AndroidMarker + ".")
         == Replace(stem, ".", AndroidMarker + ".") + AndroidMarker + "." + ext
  {
    var marked := AndroidMarker + ".";
    assert stem + "." + ext == stem + ['.'] + ext;
    ReplaceCharBeforeTail(stem, '.', ext, marked);
    assert Replace(stem, ".", marked) + marked + ext == Replace(stem, ".", marked) + AndroidMarker + "." + ext;
  }

  /** On Android every '.' of the new base name receives the marker: those inside the
      stem as well as the one before the extension. */
  lemma {:induction false} InfoToCoreOnAndroid(info: string, coresFolder: string, ext: string)
    requires '/' !in ext && '.' !in ext
    ensures InfoToCore(Android, info, coresFolder, ext)
         == Join(coresFolder, Replace(BaseNoExt(info), ".", AndroidMarker + ".") + AndroidMarker + "." + ext)
  {
    var base := Base(ChangeExtension(info, ext));
    assert InfoToCore(Android, info, coresFolder, ext) == Join(coresFolder, Replace(base, ".", AndroidMarker + "."));
    ChangeExtensionBase(info, ext);
    MarkDots(BaseNoExt(info), ext);
  }

  /** For a single-dot descriptor `x.info` the Android binary is `x_android.<ext>`. */
  lemma {:induction false} InfoToCoreOnAndroidSimple(info: string, x: string, coresFolder: string, ext: string)
    requires Base(info) == x + ".info"
    requires '.' !in x
    requires '/' !in ext && '.' !in ext
    ensures InfoToCore(Android, info, coresFolder, ext) == Join(coresFolder, x + AndroidMarker + "." + ext)
  {
    StemOfDotted(x, "info");
    assert x + ".info" == x + "." + "info";
    assert BaseNoExt(info) == x;
    InfoToCoreOnAndroid(info, coresFolder, ext);
    ReplaceCharAbsent(x, '.', AndroidMarker + ".");
  }

  /** Off Android the descriptor keeps the binary's stem and gets the extension `info`. */
  lemma {:induction false} CoreToInfoOffAndroid(p: Platform, core: string, infoFolder: string)
    requires p != Android
    ensures CoreToInfo(p, core, infoFolder) == Join(infoFolder, BaseNoExt(core) + ".info")
  {
    assert Base(ChangeExtension(core, "info")) == BaseNoExt(core) + ".info" by {
      ChangeExtensionBase(core, "info");
    }
  }

  /** On Android every `_android` is removed from the new base name. */
  lemma {:induction false} CoreToInfoOnAndroid(core: string, infoFolder: string)
    ensures CoreToInfo(Android, core, infoFolder) == Join(infoFolder, Replace(BaseNoExt(core) + ".info", AndroidMarker, ""))
  {
    assert Base(ChangeExtension(core, "info")) == BaseNoExt(core) + ".info" by {
      ChangeExtensionBase(core, "info");
    }
  }

  /** A string lacking one of the pattern's characters cannot contain the pattern. */
  lemma {:induction false} MissingCharNotContained(s: string, pattern: string, k: int)
    requires 0 <= k < |pattern|
    requires pattern[k] !in s
    ensures !Contains(s, pattern)
  {
    forall i | 0 <= i <= |s|
      ensures !OccursAt(s, pattern, i)
    {
      if i + |pattern| <= |s| {
        assert s[i..i + |pattern|][k] == s[i + k];
      }
    }
  }

  /** Removing the marker from `x_android.info` gives back `x.info` when `x` holds no marker:
      no occurrence can start inside `x` and run into the appended marker, because the
      marker's only '_' is its first character. */
  lemma {:induction false} StripMarker(x: string)
    requires !Contains(x, AndroidMarker)
    ensures Replace(x + AndroidMarker + ".info", AndroidMarker, "") == x + ".info"
  {
    var tail := AndroidMarker + ".info";
    var s := x + tail;
    assert s == x + AndroidMarker + ".info";
    forall i | 0 <= i < |x|
      ensures !OccursAt(s, AndroidMarker, i)
    {
      if i + |AndroidMarker| <= |x| {
        assert s[i..i + |AndroidMarker|] == x[i..i + |AndroidMarker|];
        assert !OccursAt(x, AndroidMarker, i);
      } else if i + |AndroidMarker| <= |s| {
        var k := |x| - i;
        assert s[i..i + |AndroidMarker|][k] == s[|x|] == '_';
        assert AndroidMarker[k] != '_';
      }
    }
    ReplaceSkipsPrefix(x, tail, AndroidMarker, "");
    ReplaceFront(AndroidMarker, ".info", "");
    assert Replace(".info", AndroidMarker, "") == ".info";
  }

  /** The text before a suffix of a base name holds no separator. */
  lemma {:induction false} BasePrefixHasNoSeparator(path: string, x: string, suffix: string)
    requires Base(path) == x + suffix
    ensures '/' !in x
  {
    HeadBase(path);
    CharsOfPart(x, suffix, '/');
  }

  /** The binary name info -> core produces off Android for `x.info`. */
  lemma {:induction false} CoreNameOffAndroid(p: Platform, info: string, x: string, coresFolder: string, ext: string)
    requires p != Android
    requires Base(info) == x + ".info"
    requires '/' !in ext && '.' !in ext
    ensures InfoToCore(p, info, coresFolder, ext) == Join(coresFolder, x + "." + ext)
    ensures BaseNoExt(InfoToCore(p, info, coresFolder, ext)) == x
  {
    StemOfDotted(x, "info");
    assert x + ".info" == x + "." + "info";
    assert BaseNoExt(info) == x;
    InfoToCoreOffAndroid(p, info, coresFolder, ext);
    BasePrefixHasNoSeparator(info, x, ".info");
    NoSeparatorDotted(x, ext);
    BaseOfJoin(coresFolder, x + "." + ext);
    StemOfDotted(x, ext);
  }

  /** Off Android, core -> info undoes info -> core: `dir/x.info` comes back as `infoFolder/x.info`. */
  lemma {:induction false} RoundTripOffAndroid(p: Platform, info: string, x: string, coresFolder: string, infoFolder: string, ext: string)
    requires p != Android
    requires Base(info) == x + ".info"
    requires '/' !in ext && '.' !in ext
    ensures CoreToInfo(p, InfoToCore(p, info, coresFolder, ext), infoFolder) == Join(infoFolder, x + ".info")
  {
    CoreNameOffAndroid(p, info, x, coresFolder, ext);
    CoreToInfoOffAndroid(p, InfoToCore(p, info, coresFolder, ext), infoFolder);
  }

  /** On Android the round trip holds when `x` has no '.' and no `_android` of its own. */
  lemma {:induction false} RoundTripOnAndroid(info: string, x: string, coresFolder: string, infoFolder: string, ext: string)
    requires Base(info) == x + ".info"
    requires '.' !in x && !Contains(x, AndroidMarker)
    requires '/' !in ext && '.' !in ext
    ensures CoreToInfo(Android, InfoToCore(Android, info, coresFolder, ext), infoFolder) == Join(infoFolder, x + ".info")
  {
    InfoToCoreOnAndroidSimple(info, x, coresFolder, ext);
    var core := InfoToCore(Android, info, coresFolder, ext);
    BasePrefixHasNoSeparator(info, x, ".info");
    var y := x + AndroidMarker;
    assert '/' !in AndroidMarker;
    assert '/' !in y;
    assert x + AndroidMarker + "." + ext == y + "." + ext;
    NoSeparatorDotted(y, ext);
    BaseOfJoin(coresFolder, y + "." + ext);
    StemOfDotted(y, ext);
    assert BaseNoExt(core) == y;
    CoreToInfoOnAndroid(core, infoFolder);
    assert y + ".info" == x + AndroidMarker + ".info";
    StripMarker(x);
  }

  /** Info -> core -> info -> core reaches the same binary as a single info -> core. */
  lemma {:induction false} InfoToCoreIdempotentOffAndroid(p: Platform, info: string, x: string, coresFolder: string, infoFolder: string, ext: string)
    requires p != Android
    requires Base(info) == x + ".info"
    requires '/' !in ext && '.' !in ext
    ensures InfoToCore(p, CoreToInfo(p, InfoToCore(p, info, coresFolder, ext), infoFolder), coresFolder, ext)
         == InfoToCore(p, info, coresFolder, ext)
  {
    RoundTripOffAndroid(p, info, x, coresFolder, infoFolder, ext);
    var info2 := Join(infoFolder, x + ".info");
    BasePrefixHasNoSeparator(info, x, ".info");
    NoSeparatorDotted(x, "info");
    BaseOfJoin(infoFolder, x + ".info");
    CoreNameOffAndroid(p, info, x, coresFolder, ext);
    CoreNameOffAndroid(p, info2, x, coresFolder, ext);
  }

  /** Joining two separator-free parts with a '.' leaves no separator. */
  lemma {:induction false} NoSeparatorDotted(x: string, ext: string)
    requires '/' !in x && '/' !in ext
    ensures '/' !in x + "." + ext
  {
    var s := x + "." + ext;
    forall k | 0 <= k < |s|
      ensures s[k] != '/'
    {
      if k < |x| {
        assert s[k] == x[k];
      } else if k > |x| {
        assert s[k] == ext[k - |x| - 1];
      }
    }
  }

  /** On Android a binary whose stem is `x_android` maps to the descriptor `x.info`. */
  lemma {:induction false} CoreToInfoOfMarkedStem(core: string, x: string, infoFolder: string)
    requires BaseNoExt(core) == x + AndroidMarker
    requires !Contains(x, AndroidMarker)
    ensures CoreToInfo(Android, core, infoFolder) == Join(infoFolder, x + ".info")
  {
    CoreToInfoOnAndroid(core, infoFolder);
    assert BaseNoExt(core) + ".info" == x + AndroidMarker + ".info";
    StripMarker(x);
  }

  /** On Android core -> info turns `<dir>/x_android.<ext>` into `<infoFolder>/x.info`. */
  lemma {:induction false} CoreToInfoStripsMarker(head: string, x: string, ext: string, infoFolder: string)
    requires IsHead(head) && IsHead(infoFolder)
    requires '/' !in x && !Contains(x, AndroidMarker)
    requires '/' !in ext && '.' !in ext
    ensures CoreToInfo(Android, head + (x + AndroidMarker + "." + ext), infoFolder) == infoFolder + x + ".info"
  {
    var y := x + AndroidMarker;
    assert '/' !in AndroidMarker;
    assert '/' !in y;
    BaseNoExtUnderHead(head, y, ext);
    CoreToInfoOfMarkedStem(head + (y + "." + ext), x, infoFolder);
    NoSeparatorDotted(x, "info");
    JoinUnderHead(infoFolder, x + ".info");
  }

  /** The paths of the launcher's unit test for core -> info on Android have the shape
      `CoreToInfoStripsMarker` asks for, and its conclusion for them is the expected
      `/data/user/0/infos/mycore_libretro.info`. */
  lemma CoreToInfoExamplePaths()
    ensures "/data/user/0/cores/mycore_libretro_android.so"
         == "/data/user/0/cores/" + ("mycore_libretro" + AndroidMarker + "." + "so")
    ensures IsHead("/data/user/0/cores/") && IsHead("/data/user/0/infos/")
    ensures "/data/user/0/infos/" + "mycore_libretro" + ".info" == "/data/user/0/infos/mycore_libretro.info"
  {
  }

  /** The stem of that unit test's core holds no separator and no marker. */
  lemma {:induction false} CoreToInfoExampleStem()
    ensures '/' !in "mycore_libretro" && !Contains("mycore_libretro", AndroidMarker)
  {
    MissingCharNotContained("mycore_libretro", AndroidMarker, 1);
  }

  /** The launcher's unit test for core -> info on Android: the binary
      `/data/user/0/cores/mycore_libretro_android.so` and the info folder `/data/user/0/infos/`
      give the descriptor `/data/user/0/infos/mycore_libretro.info`. */
  lemma CoreToInfoTestExample()
    ensures CoreToInfo(Android, "/data/user/0/cores/mycore_libretro_android.so", "/data/user/0/infos/")
         == "/data/user/0/infos/mycore_libretro.info"
  {
    CoreToInfoExamplePaths();
    CoreToInfoExampleStem();
    CoreToInfoStripsMarker("/data/user/0/cores/", "mycore_libretro", "so", "/data/user/0/infos/");
  }
}
