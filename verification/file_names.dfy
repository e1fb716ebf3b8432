/** The part of the host's `FileName` class the launcher relies on, as pure functions
    over path strings with '/' as the separator. */
module FileNames {
  import opened Strings

  /** `getBase()`: the final path component. */
  function Base(path: string): string {
    path[LastIndex(path, '/') + 1..]
  }

  /** Everything up to and including the last separator. Joining a name onto it gives the
      same path as joining onto `getDir()`. */
  function Head(path: string): string {
    path[..LastIndex(path, '/') + 1]
  }

  /** A head is empty or ends in the separator. */
  predicate IsHead(h: string) {
    h == [] || h[|h| - 1] == '/'
  }

  /** `pjoin(name)`, i.e. `os.path.join(dir, name)` for one component: an absolute name
      replaces the directory, and no separator is doubled. */
  function Join(dir: string, name: string): string {
    if StartsWith(name, "/") then name
    else if IsHead(dir) then dir + name
    else dir + "/" + name
  }

  /** `FileName(path, isdir=True)`: a directory path carries a trailing separator. */
  function AsDir(path: string): string {
    if IsHead(path) && path != [] then path else path + "/"
  }

  /** A base name without the text from its last '.' on. */
  function Stem(base: string): string {
    var i := LastIndex(base, '.');
    if i < 0 then base else base[..i]
  }

  /** `getBaseNoExt()`. */
  function BaseNoExt(path: string): string {
    Stem(Base(path))
  }

  /** `changeExtension(ext)`: same directory, the base's extension replaced by `ext`. */
  function ChangeExtension(path: string, ext: string): string {
    Head(path) + Stem(Base(path)) + "." + ext
  }

  /** A path is its head followed by its base, and the base holds no separator. */
  lemma HeadBase(path: string)
    ensures Head(path) + Base(path) == path
    ensures IsHead(Head(path))
    ensures '/' !in Base(path)
  {
    var i := LastIndex(path, '/');
    var h := path[..i + 1];
    var b := path[i + 1..];
    assert h == Head(path) && b == Base(path);
    assert h + b == path;
    assert h != [] ==> h[|h| - 1] == path[i];
    forall k | 0 <= k < |b|
      ensures b[k] != '/'
    {
      assert b[k] == path[i + 1 + k];
    }
  }

  /** Appending a separator-free name to a head makes the name the base. */
  lemma BaseAfterHead(h: string, name: string)
    requires IsHead(h)
    requires '/' !in name
    ensures Base(h + name) == name
    ensures Head(h + name) == h
  {
    var s := h + name;
    var i := LastIndex(s, '/');
    if h != [] {
      assert s[|h| - 1] == '/';
    }
    assert i == |h| - 1;
  }

  /** Joining a separator-free name onto any directory makes the name the base. */
  lemma BaseOfJoin(dir: string, name: string)
    requires '/' !in name
    ensures Base(Join(dir, name)) == name
  {
    if name != [] {
      assert name[0] != '/';
    }
    if IsHead(dir) {
      BaseAfterHead(dir, name);
    } else {
      assert dir + "/" + name == (dir + "/") + name;
      BaseAfterHead(dir + "/", name);
    }
  }

  /** The last '.' of `stem + "." + ext` is the one before `ext` when `ext` has none. */
  lemma StemOfDotted(stem: string, ext: string)
    requires '.' !in ext
    ensures Stem(stem + "." + ext) == stem
  {
    var s := stem + "." + ext;
    var i := LastIndex(s, '.');
    assert s[|stem|] == '.';
    assert i == |stem|;
    assert s[..i] == stem;
  }

  /** A stem is a part of its base name, so it holds no separator when the base holds none. */
  lemma StemHasNoSeparator(base: string)
    requires '/' !in base
    ensures '/' !in Stem(base)
  {
    var i := LastIndex(base, '.');
    if i >= 0 {
      forall k | 0 <= k < i
        ensures base[..i][k] != '/'
      {
        assert base[..i][k] == base[k];
      }
    }
  }

  /** `stem + "." + ext` holds a separator only when `stem` or `ext` does. */
  lemma DottedHasNoSeparator(stem: string, ext: string)
    requires '/' !in stem && '/' !in ext
    ensures '/' !in stem + "." + ext
  {
    var name := stem + "." + ext;
    forall k | 0 <= k < |name|
      ensures name[k] != '/'
    {
      if k < |stem| {
        assert name[k] == stem[k];
      } else if k > |stem| {
        assert name[k] == ext[k - |stem| - 1];
      }
    }
  }

  /** `changeExtension` leaves the directory and stem and puts `ext` after a single '.'. */
  lemma ChangeExtensionBase(path: string, ext: string)
    requires '/' !in ext
    ensures Base(ChangeExtension(path, ext)) == BaseNoExt(path) + "." + ext
    ensures Head(ChangeExtension(path, ext)) == Head(path)
  {
    var name := Stem(Base(path)) + "." + ext;
    assert IsHead(Head(path)) && '/' !in name by {
      HeadBase(path);
      StemHasNoSeparator(Base(path));
      DottedHasNoSeparator(Stem(Base(path)), ext);
    }
    assert ChangeExtension(path, ext) == Head(path) + name;
    BaseAfterHead(Head(path), name);
  }

  /** Under a head, joining is plain concatenation of a separator-free name. */
  lemma JoinUnderHead(dir: string, name: string)
    requires IsHead(dir)
    requires '/' !in name
    ensures Join(dir, name) == dir + name
  {
    if name != [] {
      assert name[0] != '/';
    }
  }

  /** The stem of a dotted name placed under a head. */
  lemma BaseNoExtUnderHead(head: string, stem: string, ext: string)
    requires IsHead(head)
    requires '/' !in stem && '/' !in ext && '.' !in ext
    ensures BaseNoExt(head + (stem + "." + ext)) == stem
  {
    var name := stem + "." + ext;
    DottedHasNoSeparator(stem, ext);
    BaseAfterHead(head, name);
    StemOfDotted(stem, ext);
  }
}
