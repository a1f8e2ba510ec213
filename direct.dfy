/**
 * Direct downloads into the pool: how a resolved download URL, a package name
 * and version, an optional architecture override and a branch become a pool
 * path; how one manifest item's file entries are fetched one after the other;
 * and how all items are processed, one result per item, in manifest order.
 *
 * The URL template expansion and the network fetch are not part of this
 * model: they are the `finalize` and `fetch` parameters.
 */
module Direct {
  import opened Wrappers
  import opened Text
  import Misc

  /** One file to fetch for a manifest item (`config::Direct`'s `urls`). */
  datatype FileEntry = FileEntry(
    url: string,                // URL template
    name: Option<string>,       // name override
    arch: Option<string>,       // architecture override
    checksum: Option<string>)

  /** A manifest item (`config::Direct`). */
  datatype Item = Item(name: string, version: string, urls: seq<FileEntry>)

  datatype ErrorKind = InvalidData | Other

  /** `io::Error`: a kind and a message. */
  datatype IoError = IoError(kind: ErrorKind, message: string)

  /** `DownloadResult`: the number of bytes an item's fetches reported. */
  datatype DownloadResult = Downloaded(bytes: nat)

  /** Where one file goes: its pool path and the parts it is built from. */
  datatype Destination = Destination(path: string, filename: string, arch: string, extension: string)

  /** `UrlTokenizer::finalize(template, name, version)`: the URL, or the offending text. */
  type Finalizer = (string, string, string) -> Result<string, string>

  /** `request::file(client, url, checksum, destination)`: bytes transferred, or an error. */
  type Fetcher = (string, Option<string>, string) -> Result<nat, IoError>

  // ---------------------------------------------------------------------------
  // File names
  // ---------------------------------------------------------------------------

  /** Source artifacts: they go to `main/source` and carry no architecture. */
  predicate IsSourceExt(ext: string) {
    ext == "tar.gz" || ext == "tar.xz" || ext == "dsc"
  }

  /**
   * `gen_filename`: `<name>_<version>.<ext>` for source artifacts, and
   * `<name>_<version>_<arch>.<ext>` otherwise, where a `ddeb` puts
   * `-dbgsym_` in place of the first `_`.
   */
  function GenFilename(name: string, version: string, arch: string, ext: string): string {
    if IsSourceExt(ext) then
      name + (if ext == "ddeb" then "-dbgsym_" else "_") + version + "." + ext
    else
      name + (if ext == "ddeb" then "-dbgsym_" else "_") + version + "_" + arch + "." + ext
  }

  /**
   * The three shapes of a pool file name; each ends in `.` and the
   * extension it was given.
   */
  lemma GenFilenameShape(name: string, version: string, arch: string, ext: string)
    ensures var filename := GenFilename(name, version, arch, ext);
      && (IsSourceExt(ext) ==> filename == name + "_" + version + "." + ext)
      && (ext == "ddeb" ==> filename == name + "-dbgsym_" + version + "_" + arch + ".ddeb")
      && (!IsSourceExt(ext) && ext != "ddeb" ==> filename == name + "_" + version + "_" + arch + "." + ext)
      && EndsWith(filename, "." + ext)
  {
    var filename := GenFilename(name, version, arch, ext);
    var sep := if ext == "ddeb" then "-dbgsym_" else "_";
    var head := if IsSourceExt(ext) then name + sep + version else name + sep + version + "_" + arch;
    assert filename == head + ("." + ext);
    if ext == "ddeb" {
      assert "." + ext == ".ddeb";
    }
  }

  // ---------------------------------------------------------------------------
  // The file component of a URL, its extension and its stem
  // ---------------------------------------------------------------------------

  /**
   * The text after the URL's last `/`. A URL without `/` loses its first
   * character instead, and an empty URL cannot be sliced at all.
   */
  function FileComponent(url: string): (file: string)
    requires url != []
    ensures |file| < |url| && file == url[|url| - |file|..]
    ensures '/' !in file
    ensures '/' in url ==> url[|url| - |file| - 1] == '/'
    ensures '/' !in url ==> file == url[1..]
  {
    url[AfterLast(url, '/')..]
  }

  predicate IsCompressed(tail: string) {
    tail == "gz" || tail == "xz"
  }

  /**
   * What the extension slicing needs of a file component: a `.`, and when
   * the text after it is `gz` or `xz`, at least three characters before it
   * (so that the three characters before the `.` can be compared with `tar`).
   */
  predicate HasExtension(file: string) {
    match RFind(file, '.')
    case None => false
    case Some(dot) => IsCompressed(file[dot + 1..]) ==> dot >= 3
  }

  /**
   * `ext_pos`: just after the last `.`, moved back four places when the text
   * after the `.` is `gz` or `xz` and the three characters before the `.`
   * read `tar`.
   */
  function ExtensionStart(file: string): (start: nat)
    requires HasExtension(file)
    ensures start <= |file|
  {
    var dot := RFind(file, '.').value;
    if IsCompressed(file[dot + 1..]) && file[dot - 3..dot] == "tar" then dot - 3 else dot + 1
  }

  /**
   * The extension: `tar.gz` or `tar.xz` exactly when the file ends that way,
   * and otherwise the run after the last `.`.
   */
  function Extension(file: string): (ext: string)
    requires HasExtension(file)
    ensures |ext| <= |file| && ext == file[|file| - |ext|..]
    ensures ext == "tar.gz" <==> EndsWith(file, "tar.gz")
    ensures ext == "tar.xz" <==> EndsWith(file, "tar.xz")
    ensures ext != "tar.gz" && ext != "tar.xz" ==>
      '.' !in ext && |ext| < |file| && file[|file| - |ext| - 1] == '.'
  {
    ExtensionSlice(file);
    file[ExtensionStart(file)..]
  }

  /** The postconditions of `Extension`, stated of the slice it returns. */
  lemma ExtensionSlice(file: string)
    requires HasExtension(file)
    ensures var ext := file[ExtensionStart(file)..];
      && ext == file[|file| - |ext|..]
      && (ext == "tar.gz" <==> EndsWith(file, "tar.gz"))
      && (ext == "tar.xz" <==> EndsWith(file, "tar.xz"))
      && (ext != "tar.gz" && ext != "tar.xz" ==>
            '.' !in ext && |ext| < |file| && file[|file| - |ext| - 1] == '.')
  {
    if EndsWith(file, "tar.gz") || EndsWith(file, "tar.xz") {
      TarballExtensionStart(file);
    } else {
      PlainExtensionStart(file);
    }
  }

  /** A tarball's extension is its last six characters. */
  lemma TarballExtensionStart(file: string)
    requires EndsWith(file, "tar.gz") || EndsWith(file, "tar.xz")
    ensures HasExtension(file) && ExtensionStart(file) == |file| - 6
  {
    TarballDot(file);
  }

  /**
   * Without a tarball suffix the extension starts right after the last `.`:
   * `tar` before a `.gz` or `.xz` that ends the file would be such a suffix.
   */
  lemma PlainExtensionStart(file: string)
    requires HasExtension(file) && !EndsWith(file, "tar.gz") && !EndsWith(file, "tar.xz")
    ensures ExtensionStart(file) == RFind(file, '.').value + 1
    ensures '.' !in file[ExtensionStart(file)..] && file[ExtensionStart(file) - 1] == '.'
    ensures file[ExtensionStart(file)..] != "tar.gz" && file[ExtensionStart(file)..] != "tar.xz"
  {
    TarWindowIsSuffix(file, RFind(file, '.').value);
    assert "tar.gz"[3] == '.' && "tar.xz"[3] == '.';
  }

  /** `tar` before a `.gz` or `.xz` that ends the file is a tarball suffix. */
  lemma TarWindowIsSuffix(file: string, dot: nat)
    requires dot < |file| && file[dot] == '.'
    requires IsCompressed(file[dot + 1..]) ==> dot >= 3
    ensures IsCompressed(file[dot + 1..]) && file[dot - 3..dot] == "tar" ==>
      EndsWith(file, "tar.gz") || EndsWith(file, "tar.xz")
  {
    var tail := file[dot + 1..];
    if IsCompressed(tail) && file[dot - 3..dot] == "tar" {
      assert file[|file| - 6..] == file[dot - 3..dot] + [file[dot]] + tail;
    }
  }

  /** A file ending in `tar.gz` or `tar.xz` has its last `.` before the `gz` or `xz`. */
  lemma TarballDot(file: string)
    requires EndsWith(file, "tar.gz") || EndsWith(file, "tar.xz")
    ensures RFind(file, '.') == Some(|file| - 3)
    ensures IsCompressed(file[|file| - 2..]) && file[|file| - 6..|file| - 3] == "tar"
  {
    var u := file[|file| - 6..];
    TarballSuffix(u);
    TarballSuffixIn(file, u);
  }

  /** A file ending in a tarball suffix has that suffix's `.` as its last one. */
  lemma TarballSuffixIn(file: string, u: string)
    requires |file| >= 6 && u == file[|file| - 6..]
    requires u[..3] == "tar" && u[3] == '.' && IsCompressed(u[4..]) && '.' !in u[4..]
    ensures RFind(file, '.') == Some(|file| - 3)
    ensures IsCompressed(file[|file| - 2..]) && file[|file| - 6..|file| - 3] == "tar"
  {
    assert file[|file| - 3] == u[3];
    assert file[|file| - 2..] == u[4..];
    assert file[|file| - 6..|file| - 3] == u[..3];
    RFindAt(file, '.', |file| - 3);
  }

  /** `tar.gz` and `tar.xz`: `tar`, a `.`, and a compression suffix with no `.`. */
  lemma TarballSuffix(u: string)
    requires u == "tar.gz" || u == "tar.xz"
    ensures |u| == 6 && u[..3] == "tar" && u[3] == '.' && IsCompressed(u[4..]) && '.' !in u[4..]
  {
    if u == "tar.gz" {
      assert u[4..] == "gz";
    } else {
      assert u[4..] == "xz";
    }
  }

  /** `file[..ext_pos - 1]`: the file without its extension and one more character. */
  function Stem(file: string): (stem: string)
    requires HasExtension(file) && ExtensionStart(file) >= 1
    ensures |stem| + 1 + |Extension(file)| == |file| && stem == file[..|stem|]
  {
    file[..ExtensionStart(file) - 1]
  }

  /** For a plain extension, the file is the stem, a `.`, and the extension. */
  lemma StemOfPlainFile(file: string)
    requires HasExtension(file) && !EndsWith(file, "tar.gz") && !EndsWith(file, "tar.xz")
    ensures ExtensionStart(file) >= 1
    ensures file == Stem(file) + "." + Extension(file) && '.' !in Extension(file)
  {
    var ext := Extension(file);
    assert file == file[..|file| - |ext| - 1] + [file[|file| - |ext| - 1]] + file[|file| - |ext|..];
  }

  /** For a `.tar.gz` or `.tar.xz` file the stem excludes the `.tar` as well. */
  lemma StemOfTarball(file: string)
    requires EndsWith(file, ".tar.gz") || EndsWith(file, ".tar.xz")
    ensures HasExtension(file) && ExtensionStart(file) >= 1
    ensures Stem(file) == file[..|file| - 7]
  {
    assert EndsWith(file, "tar.gz") || EndsWith(file, "tar.xz") by {
      assert file[|file| - 6..] == file[|file| - 7..][1..];
    }
    TarballDot(file);
  }

  /**
   * The three characters before the `.` are compared with `tar` without
   * looking for a `.` before them: `footar.gz` has extension `tar.gz` and
   * stem `fo`.
   */
  lemma GluedTarSuffix(file: string)
    requires file == "footar.gz"
    ensures HasExtension(file) && ExtensionStart(file) >= 1
    ensures Extension(file) == "tar.gz" && Stem(file) == "fo"
  {
    assert file[6] == '.' && file[7..] == "gz";
    assert file[3..6] == "tar";
    RFindAt(file, '.', 6);
  }

  // ---------------------------------------------------------------------------
  // The destination of one file
  // ---------------------------------------------------------------------------

  /**
   * The pool path of a file: `repo/pool/<branch>/main/source/...` for
   * source artifacts and `repo/pool/<branch>/main/binary-<arch>/...`
   * otherwise, then the name's first character, the name, and the file name.
   */
  function PoolPath(branch: string, name: string, arch: string, ext: string, filename: string): string
    requires name != []
  {
    var dst := if IsSourceExt(ext) then "/main/source/" else "/main/binary-" + arch + "/";
    "repo/pool/" + branch + dst + name[0..1] + "/" + name + "/" + filename
  }

  /**
   * The two shapes of a pool path; either way it ends in the name's directory
   * and the file name.
   */
  lemma PoolPathShape(branch: string, name: string, arch: string, ext: string, filename: string)
    requires name != []
    ensures var path := PoolPath(branch, name, arch, ext, filename);
      && (IsSourceExt(ext) ==>
            path == "repo/pool/" + branch + "/main/source/" + [name[0]] + "/" + name + "/" + filename)
      && (!IsSourceExt(ext) ==>
            path == "repo/pool/" + branch + "/main/binary-" + arch + "/" + [name[0]] + "/" + name + "/" + filename)
      && EndsWith(path, "/" + name + "/" + filename)
  {
    var dst := if IsSourceExt(ext) then "/main/source/" else "/main/binary-" + arch + "/";
    assert name[0..1] == [name[0]];
    var tail := "/" + name + "/" + filename;
    assert PoolPath(branch, name, arch, ext, filename) == ("repo/pool/" + branch + dst + [name[0]]) + tail;
  }

  /** Example: a binary package's file name. */
  lemma FilenameBinary()
    ensures GenFilename("foo", "1.2", "amd64", "deb") == "foo_1.2_amd64.deb"
  {
    GenFilenameShape("foo", "1.2", "amd64", "deb");
    assert "deb"[1] != "dsc"[1];
  }

  /** Example: a source tarball's file name: no architecture. */
  lemma FilenameSource(arch: string)
    ensures GenFilename("foo", "1.2", arch, "tar.gz") == "foo_1.2.tar.gz"
  {
    GenFilenameShape("foo", "1.2", arch, "tar.gz");
  }

  /** Example: a binary package's directory. */
  lemma PoolPathBinary(filename: string)
    ensures PoolPath("stable", "foo", "amd64", "deb", filename)
         == "repo/pool/stable/main/binary-amd64/f/foo/" + filename
  {
    PoolPathShape("stable", "foo", "amd64", "deb", filename);
    assert "deb"[1] != "dsc"[1];
    assert ["foo"[0]] == "f";
    assert "repo/pool/" + "stable" + "/main/binary-" == "repo/pool/stable/main/binary-";
    assert "repo/pool/stable/main/binary-" + "amd64" + "/" == "repo/pool/stable/main/binary-amd64/";
    assert "repo/pool/stable/main/binary-amd64/" + "f" + "/" == "repo/pool/stable/main/binary-amd64/f/";
    assert "repo/pool/stable/main/binary-amd64/f/" + "foo" + "/" == "repo/pool/stable/main/binary-amd64/f/foo/";
  }

  /** Example: a source tarball's directory: no architecture. */
  lemma PoolPathSource(arch: string, filename: string)
    ensures PoolPath("stable", "foo", arch, "tar.gz", filename)
         == "repo/pool/stable/main/source/f/foo/" + filename
  {
    PoolPathShape("stable", "foo", arch, "tar.gz", filename);
    assert ["foo"[0]] == "f";
    assert "repo/pool/" + "stable" + "/main/source/" == "repo/pool/stable/main/source/";
    assert "repo/pool/stable/main/source/" + "f" + "/" == "repo/pool/stable/main/source/f/";
    assert "repo/pool/stable/main/source/f/" + "foo" + "/" == "repo/pool/stable/main/source/f/foo/";
  }

  /**
   * What the destination block needs not to panic: a URL to slice, a file
   * component with an extension, a name whose first character can be taken,
   * and, when no architecture is given, a non-empty stem to infer it from.
   */
  predicate Resolvable(url: string, name: string, archOverride: Option<string>) {
    && url != []
    && name != []
    && HasExtension(FileComponent(url))
    && (archOverride.None? ==> ExtensionStart(FileComponent(url)) >= 2)
  }

  /**
   * The destination block of `download`: the extension of the URL's file
   * component, the architecture (the override verbatim, or inferred from the
   * stem), the file name and the pool path built from them.
   */
  function Resolve(url: string, name: string, version: string, archOverride: Option<string>, branch: string): (d: Destination)
    requires Resolvable(url, name, archOverride)
    ensures d.extension == Extension(FileComponent(url))
    ensures archOverride.Some? ==> d.arch == archOverride.value
    ensures archOverride.None? ==> d.arch == Misc.ArchFromStem(Stem(FileComponent(url)))
    ensures d.filename == GenFilename(name, version, d.arch, d.extension)
    ensures d.path == PoolPath(branch, name, d.arch, d.extension, d.filename)
  {
    var file := FileComponent(url);
    var extension := Extension(file);
    var arch := match archOverride
      case Some(a) => a
      case None => Misc.ArchFromStem(Stem(file));
    var filename := GenFilename(name, version, arch, extension);
    var path := PoolPath(branch, name, arch, extension, filename);
    Destination(path, filename, arch, extension)
  }

  /**
   * A destination lies under `repo/pool/<branch>/main/`, in the directory of
   * its package name, and its file name carries the URL's extension.
   */
  lemma ResolveShape(url: string, name: string, version: string, archOverride: Option<string>, branch: string)
    requires Resolvable(url, name, archOverride)
    ensures var d := Resolve(url, name, version, archOverride, branch);
      && EndsWith(d.filename, "." + d.extension)
      && EndsWith(d.path, "/" + name + "/" + d.filename)
      && d.path[..|"repo/pool/" + branch + "/main/"|] == "repo/pool/" + branch + "/main/"
  {
    var d := Resolve(url, name, version, archOverride, branch);
    GenFilenameShape(name, version, d.arch, d.extension);
    PoolPathShape(branch, name, d.arch, d.extension, d.filename);
    PoolPathPrefix(branch, name, d.arch, d.extension, d.filename);
  }

  /** Every pool path starts with `repo/pool/<branch>/main/`. */
  lemma PoolPathPrefix(branch: string, name: string, arch: string, ext: string, filename: string)
    requires name != []
    ensures var prefix := "repo/pool/" + branch + "/main/";
      |prefix| <= |PoolPath(branch, name, arch, ext, filename)|
      && PoolPath(branch, name, arch, ext, filename)[..|prefix|] == prefix
  {
    var prefix := "repo/pool/" + branch + "/main/";
    var rest := if IsSourceExt(ext) then "source/" else "binary-" + arch + "/";
    var tail := name[0..1] + "/" + name + "/" + filename;
    if IsSourceExt(ext) {
      assert "/main/source/" == "/main/" + "source/";
    } else {
      assert "/main/binary-" + arch + "/" == "/main/" + ("binary-" + arch + "/");
    }
    assert PoolPath(branch, name, arch, ext, filename) == prefix + (rest + tail);
  }

  // ---------------------------------------------------------------------------
  // Reading the destination back
  // ---------------------------------------------------------------------------

  /**
   * The pool file name reads back as the package name it was built from,
   * for names without `_` and any extension but `ddeb`.
   */
  lemma FilenameRoundTrip(name: string, version: string, arch: string, ext: string)
    requires '_' !in name && ext != "ddeb"
    ensures '_' in GenFilename(name, version, arch, ext)
    ensures Misc.PackageName(GenFilename(name, version, arch, ext)) == name
  {
    var filename := GenFilename(name, version, arch, ext);
    if IsSourceExt(ext) {
      assert filename == name + "_" + (version + "." + ext);
      Misc.PackageNameOfPrefix(name, version + "." + ext);
    } else {
      assert filename == name + "_" + (version + "_" + arch + "." + ext);
      Misc.PackageNameOfPrefix(name, version + "_" + arch + "." + ext);
    }
  }

  /** A debug-symbol package reads back as `<name>-dbgsym`. */
  lemma DdebFilenameName(name: string, version: string, arch: string)
    requires '_' !in name
    ensures '_' in GenFilename(name, version, arch, "ddeb")
    ensures Misc.PackageName(GenFilename(name, version, arch, "ddeb")) == name + "-dbgsym"
  {
    var filename := GenFilename(name, version, arch, "ddeb");
    assert filename == (name + "-dbgsym") + "_" + (version + "_" + arch + ".ddeb");
    Misc.PackageNameOfPrefix(name + "-dbgsym", version + "_" + arch + ".ddeb");
  }

  /**
   * A `.deb` downloaded for a manifest package whose name has no `_`, and
   * whose name, version and architecture override have no `/`, sits under a
   * last path component equal to its file name. The walk over the pool keeps
   * that entry and matches it back to the package's first manifest position.
   */
  lemma DownloadedDebIsMatched(url: string, name: string, version: string, archOverride: Option<string>,
                               branch: string, packages: seq<string>, i: nat)
    requires Resolvable(url, name, archOverride) && '_' !in name
    requires '/' !in name && '/' !in version && (archOverride.Some? ==> '/' !in archOverride.value)
    requires Resolve(url, name, version, archOverride, branch).extension == "deb"
    requires i < |packages| && packages[i] == name && name !in packages[..i]
    ensures var d := Resolve(url, name, version, archOverride, branch);
      && d.path != []
      && FileComponent(d.path) == d.filename
      && var entry := Misc.DirEntry(d.path, FileComponent(d.path), false);
      && Misc.IsDeb(entry)
      && '_' in entry.fileName
      && Misc.MatchDeb(entry, packages) == Some((d.path, i))
  {
    ResolvedArchLacks(url, name, version, archOverride, branch, '/');
    DestinationIsMatched(Resolve(url, name, version, archOverride, branch), name, version, branch, packages, i);
  }

  /** The same, for a destination built from its own architecture with extension `deb`. */
  lemma DestinationIsMatched(d: Destination, name: string, version: string, branch: string, packages: seq<string>, i: nat)
    requires name != [] && '_' !in name && '/' !in name && '/' !in version && '/' !in d.arch
    requires d.extension == "deb" && d.filename == GenFilename(name, version, d.arch, d.extension)
    requires d.path == PoolPath(branch, name, d.arch, d.extension, d.filename)
    requires i < |packages| && packages[i] == name && name !in packages[..i]
    ensures d.path != [] && FileComponent(d.path) == d.filename
    ensures var entry := Misc.DirEntry(d.path, FileComponent(d.path), false);
      && Misc.IsDeb(entry)
      && '_' in entry.fileName
      && Misc.MatchDeb(entry, packages) == Some((d.path, i))
  {
    PoolPathShape(branch, name, d.arch, d.extension, d.filename);
    EndsWithTail(d.path, "/" + name, "/" + d.filename);
    PoolDebIsMatched(d.path, name, version, d.arch, packages, i);
  }

  /** The same, for any path ending in `/` and the file name of a `.deb`. */
  lemma PoolDebIsMatched(path: string, name: string, version: string, arch: string, packages: seq<string>, i: nat)
    requires '_' !in name && '/' !in name && '/' !in version && '/' !in arch
    requires EndsWith(path, "/" + GenFilename(name, version, arch, "deb"))
    requires i < |packages| && packages[i] == name && name !in packages[..i]
    ensures path != [] && FileComponent(path) == GenFilename(name, version, arch, "deb")
    ensures var entry := Misc.DirEntry(path, FileComponent(path), false);
      && Misc.IsDeb(entry)
      && '_' in entry.fileName
      && Misc.MatchDeb(entry, packages) == Some((path, i))
  {
    var filename := GenFilename(name, version, arch, "deb");
    FilenameRoundTrip(name, version, arch, "deb");
    GenFilenameShape(name, version, arch, "deb");
    assert "." + "deb" == ".deb";
    DebFilenameLacksSlash(name, version, arch);
    FileComponentOfSuffix(path, filename);
    Misc.MatchDebAt(Misc.DirEntry(path, filename, false), packages, i);
  }

  /** A `.deb` file name has no `/` unless its name, version or architecture has one. */
  lemma DebFilenameLacksSlash(name: string, version: string, arch: string)
    requires '/' !in name && '/' !in version && '/' !in arch
    ensures '/' !in GenFilename(name, version, arch, "deb")
  {
    GenFilenameShape(name, version, arch, "deb");
    assert "deb"[1] != "dsc"[1];
    assert '/' !in "_" && '/' !in "." && '/' !in "deb";
  }

  /** A path ending in `/` and a `/`-free text has that text as its file component. */
  lemma FileComponentOfSuffix(path: string, file: string)
    requires '/' !in file && EndsWith(path, "/" + file)
    ensures path != [] && FileComponent(path) == file
  {
    var start := |path| - |file|;
    assert path[start - 1] == ("/" + file)[0] == '/';
    assert path[start..] == ("/" + file)[1..] == file;
    AfterLastUnique(path, '/', start);
  }

  /**
   * The architecture of a destination holds no character that is missing
   * from both the override and the URL's file component; in particular no `/`.
   */
  lemma ResolvedArchLacks(url: string, name: string, version: string, archOverride: Option<string>,
                          branch: string, c: char)
    requires Resolvable(url, name, archOverride)
    requires c !in FileComponent(url) && (archOverride.Some? ==> c !in archOverride.value)
    ensures c !in Resolve(url, name, version, archOverride, branch).arch
  {
    if archOverride.None? {
      var file := FileComponent(url);
      var stem := Stem(file);
      assert forall k :: 0 <= k < |stem| ==> stem[k] == file[k];
      Misc.InfixLacks(Misc.ArchFromStem(stem), stem, c);
    }
  }

  // ---------------------------------------------------------------------------
  // One file entry
  // ---------------------------------------------------------------------------

  /** The name used for an entry: its override, or the item's name. */
  function EntryName(item: Item, entry: FileEntry): string {
    match entry.name
    case Some(n) => n
    case None => item.name
  }

  /** What processing one entry comes to: a panic, or a result. */
  datatype Attempt = Panics | Finished(outcome: Result<nat, IoError>)

  /**
   * One iteration of the loop in `download`: the URL template is resolved
   * (an unsupported variable becomes an invalid-data error), the destination
   * derived, and the file fetched there. Deriving the destination panics
   * when the URL does not meet `Resolvable`.
   */
  function AttemptEntry(item: Item, entry: FileEntry, branch: string, finalize: Finalizer, fetch: Fetcher): Attempt {
    var name := EntryName(item, entry);
    match finalize(entry.url, name, item.version)
    case Err(text) => Finished(Err(IoError(InvalidData, "unsupported variable: " + text)))
    case Ok(url) =>
      if Resolvable(url, name, entry.arch) then
        Finished(fetch(url, entry.checksum, Resolve(url, name, item.version, entry.arch, branch).path))
      else
        Panics
  }

  /** An unsupported template variable ends the entry with an invalid-data error. */
  lemma AttemptOfTemplateError(item: Item, entry: FileEntry, branch: string, finalize: Finalizer, fetch: Fetcher)
    requires finalize(entry.url, EntryName(item, entry), item.version).Err?
    ensures AttemptEntry(item, entry, branch, finalize, fetch)
         == Finished(Err(IoError(InvalidData, "unsupported variable: " + finalize(entry.url, EntryName(item, entry), item.version).error)))
  {
  }

  /** Once the URL is resolved, the entry panics or ends with what the fetch reports. */
  lemma AttemptOfResolvedUrl(item: Item, entry: FileEntry, branch: string, finalize: Finalizer, fetch: Fetcher, url: string)
    requires finalize(entry.url, EntryName(item, entry), item.version) == Ok(url)
    ensures AttemptEntry(item, entry, branch, finalize, fetch).Finished? <==> Resolvable(url, EntryName(item, entry), entry.arch)
    ensures AttemptEntry(item, entry, branch, finalize, fetch).Finished? ==>
      AttemptEntry(item, entry, branch, finalize, fetch)
        == Finished(fetch(url, entry.checksum, Resolve(url, EntryName(item, entry), item.version, entry.arch, branch).path))
  {
  }

  /**
   * An entry that does not panic fetches into the pool: under
   * `repo/pool/<branch>/main/`, in the directory of its name, as its file name.
   */
  lemma AttemptFetchesIntoPool(item: Item, entry: FileEntry, branch: string, finalize: Finalizer, fetch: Fetcher, url: string)
    requires finalize(entry.url, EntryName(item, entry), item.version) == Ok(url)
    requires Resolvable(url, EntryName(item, entry), entry.arch)
    ensures var d := Resolve(url, EntryName(item, entry), item.version, entry.arch, branch);
      && AttemptEntry(item, entry, branch, finalize, fetch) == Finished(fetch(url, entry.checksum, d.path))
      && d.path[..|"repo/pool/" + branch + "/main/"|] == "repo/pool/" + branch + "/main/"
      && EndsWith(d.path, "/" + EntryName(item, entry) + "/" + d.filename)
  {
    AttemptOfResolvedUrl(item, entry, branch, finalize, fetch, url);
    ResolveShape(url, EntryName(item, entry), item.version, entry.arch, branch);
  }

  /** The attempt of each entry, in order. */
  function Attempts(item: Item, entries: seq<FileEntry>, branch: string, finalize: Finalizer, fetch: Fetcher)
    : (attempts: seq<Attempt>)
    ensures |attempts| == |entries|
    decreases |entries|
  {
    if entries == [] then []
    else [AttemptEntry(item, entries[0], branch, finalize, fetch)] + Attempts(item, entries[1..], branch, finalize, fetch)
  }

  /** The attempt at position `j` is that of the entry at position `j`. */
  lemma {:induction false} AttemptsAt(item: Item, entries: seq<FileEntry>, j: nat, branch: string, finalize: Finalizer, fetch: Fetcher)
    requires j < |entries|
    ensures Attempts(item, entries, branch, finalize, fetch)[j] == AttemptEntry(item, entries[j], branch, finalize, fetch)
    decreases |entries|
  {
    if j > 0 {
      AttemptsAt(item, entries[1..], j - 1, branch, finalize, fetch);
    }
  }

  // ---------------------------------------------------------------------------
  // All file entries of an item
  // ---------------------------------------------------------------------------

  /**
   * The loop does not panic: every entry it reaches, that is every entry up
   * to and including the first that fails, is safe to process.
   */
  predicate NoPanic(attempts: seq<Attempt>)
    decreases |attempts|
  {
    attempts == [] ||
    (attempts[0].Finished? && (attempts[0].outcome.Ok? ==> NoPanic(attempts[1..])))
  }

  /** `downloaded += …?`: a success adds its bytes, an error is passed on. */
  function AddBytes(n: nat, r: Result<nat, IoError>): Result<nat, IoError> {
    match r
    case Ok(m) => Ok(n + m)
    case Err(e) => Err(e)
  }

  /** The entries fetched in order: the sum of their bytes, or the first error. */
  function FetchAll(attempts: seq<Attempt>): Result<nat, IoError>
    requires NoPanic(attempts)
    decreases |attempts|
  {
    if attempts == [] then Ok(0)
    else
      match attempts[0].outcome
      case Err(e) => Err(e)
      case Ok(n) => AddBytes(n, FetchAll(attempts[1..]))
  }

  /** `download` does not panic on this item. */
  predicate Downloadable(item: Item, branch: string, finalize: Finalizer, fetch: Fetcher) {
    NoPanic(Attempts(item, item.urls, branch, finalize, fetch))
  }

  /** What `download` returns for an item. */
  function DownloadOutcome(item: Item, branch: string, finalize: Finalizer, fetch: Fetcher): Result<DownloadResult, IoError>
    requires Downloadable(item, branch, finalize, fetch)
  {
    match FetchAll(Attempts(item, item.urls, branch, finalize, fetch))
    case Ok(n) => Ok(Downloaded(n))
    case Err(e) => Err(e)
  }

  /**
   * Fetching `a` then `b` is fetching `a + b`: the bytes add up, and an
   * error in `a` ends the run before `b` is reached (so nothing is needed of
   * `b` then).
   */
  lemma {:induction false} FetchAllAppend(a: seq<Attempt>, b: seq<Attempt>)
    requires NoPanic(a)
    ensures NoPanic(a + b) <==> (FetchAll(a).Err? || NoPanic(b))
    ensures NoPanic(a + b) ==>
      FetchAll(a + b) == match FetchAll(a)
                         case Err(e) => Err(e)
                         case Ok(n) => AddBytes(n, FetchAll(b))
    decreases |a|
  {
    if a == [] {
      assert a + b == b;
    } else {
      assert (a + b)[0] == a[0];
      assert (a + b)[1..] == a[1..] + b;
      if a[0].outcome.Ok? {
        FetchAllAppend(a[1..], b);
      }
    }
  }

  /** The run succeeds exactly when every entry is processed and its fetch succeeds. */
  lemma {:induction false} FetchAllOk(attempts: seq<Attempt>)
    requires NoPanic(attempts)
    ensures FetchAll(attempts).Ok? <==>
      forall j :: 0 <= j < |attempts| ==> attempts[j].Finished? && attempts[j].outcome.Ok?
    decreases |attempts|
  {
    if attempts != [] && attempts[0].outcome.Ok? {
      FetchAllOk(attempts[1..]);
      assert forall j :: 1 <= j < |attempts| ==> attempts[j] == attempts[1..][j - 1];
    }
  }

  /**
   * Fail fast: after entries that all succeed, an entry that fails with `e`
   * makes the whole run fail with `e`, whatever follows it; the entries after
   * it are never processed, so even one that would panic does no harm.
   */
  lemma {:induction false} FetchAllFailFast(done: seq<Attempt>, e: IoError, rest: seq<Attempt>)
    requires forall k :: 0 <= k < |done| ==> done[k].Finished? && done[k].outcome.Ok?
    ensures NoPanic(done + [Finished(Err(e))] + rest)
    ensures FetchAll(done + [Finished(Err(e))] + rest) == Err(e)
    decreases |done|
  {
    var run := done + [Finished(Err(e))] + rest;
    if done != [] {
      assert run[0] == done[0];
      assert run[1..] == done[1..] + [Finished(Err(e))] + rest;
      assert forall k :: 0 <= k < |done[1..]| ==> done[1..][k] == done[k + 1];
      FetchAllFailFast(done[1..], e, rest);
    }
  }

  /** A failed run failed at some entry, after entries that all succeeded. */
  lemma {:induction false} FetchAllErr(attempts: seq<Attempt>, e: IoError)
    requires NoPanic(attempts) && FetchAll(attempts) == Err(e)
    ensures exists j :: && 0 <= j < |attempts|
                        && (forall k :: 0 <= k < j ==> attempts[k].Finished? && attempts[k].outcome.Ok?)
                        && attempts[j] == Finished(Err(e))
    decreases |attempts|
  {
    if attempts[0].outcome.Err? {
      assert attempts[0] == Finished(Err(e));
    } else {
      var tail := attempts[1..];
      FetchAllErr(tail, e);
      var j :| && 0 <= j < |tail|
               && (forall k :: 0 <= k < j ==> tail[k].Finished? && tail[k].outcome.Ok?)
               && tail[j] == Finished(Err(e));
      assert forall k :: 1 <= k < j + 1 ==> attempts[k] == tail[k - 1];
      assert attempts[j + 1] == tail[j];
    }
  }

  /** Every attempt the loop reaches has finished. */
  lemma NoPanicAt(attempts: seq<Attempt>, i: nat)
    requires i < |attempts| && NoPanic(attempts[i..])
    ensures attempts[i].Finished?
  {
    assert attempts[i..][0] == attempts[i];
  }

  /**
   * One turn of the loop: with `done` bytes summed before position `i`, the
   * attempt there either ends the run with its error or adds its bytes.
   */
  lemma FetchAllStep(attempts: seq<Attempt>, i: nat, done: nat, fetched: Result<nat, IoError>)
    requires i < |attempts| && NoPanic(attempts[i..]) && attempts[i] == Finished(fetched)
    requires NoPanic(attempts) && FetchAll(attempts) == AddBytes(done, FetchAll(attempts[i..]))
    ensures fetched.Err? ==> FetchAll(attempts) == Err(fetched.error)
    ensures fetched.Ok? ==>
      && NoPanic(attempts[i + 1..])
      && FetchAll(attempts) == AddBytes(done + fetched.value, FetchAll(attempts[i + 1..]))
  {
    assert attempts[i..][0] == attempts[i];
    assert attempts[i..][1..] == attempts[i + 1..];
  }

  /** Once every attempt is summed, the run's result is the sum. */
  lemma FetchAllDone(attempts: seq<Attempt>, done: nat)
    requires NoPanic(attempts[|attempts|..])
    requires NoPanic(attempts) && FetchAll(attempts) == AddBytes(done, FetchAll(attempts[|attempts|..]))
    ensures FetchAll(attempts) == Ok(done)
  {
    assert attempts[|attempts|..] == [];
  }

  // ---------------------------------------------------------------------------
  // download and parallel
  // ---------------------------------------------------------------------------

  /**
   * One pass of the loop body of `download`: resolve the template, derive the
   * destination and fetch the file. Its result is the entry's attempt.
   */
  method DownloadEntry(item: Item, entry: FileEntry, branch: string, finalize: Finalizer, fetch: Fetcher)
    returns (r: Result<nat, IoError>)
    requires AttemptEntry(item, entry, branch, finalize, fetch).Finished?
    ensures AttemptEntry(item, entry, branch, finalize, fetch) == Finished(r)
  {
    var name := EntryName(item, entry);
    var resolved := finalize(entry.url, name, item.version);
    if resolved.Err? {
      AttemptOfTemplateError(item, entry, branch, finalize, fetch);
      return Err(IoError(InvalidData, "unsupported variable: " + resolved.error));
    }
    var url := resolved.value;
    AttemptOfResolvedUrl(item, entry, branch, finalize, fetch, url);
    var destination := Resolve(url, name, item.version, entry.arch, branch).path;
    r := fetch(url, entry.checksum, destination);
  }

  /**
   * `download`: the entries are handled in order, their byte counts summed,
   * and the first failure is returned at once.
   */
  method Download(item: Item, branch: string, finalize: Finalizer, fetch: Fetcher)
    returns (r: Result<DownloadResult, IoError>)
    requires Downloadable(item, branch, finalize, fetch)
    ensures r == DownloadOutcome(item, branch, finalize, fetch)
  {
    ghost var attempts := Attempts(item, item.urls, branch, finalize, fetch);
    var downloaded: nat := 0;
    var i := 0;
    while i < |item.urls|
      invariant 0 <= i <= |item.urls|
      invariant NoPanic(attempts[i..])
      invariant FetchAll(attempts) == AddBytes(downloaded, FetchAll(attempts[i..]))
    {
      NoPanicAt(attempts, i);
      AttemptsAt(item, item.urls, i, branch, finalize, fetch);
      var fetched := DownloadEntry(item, item.urls[i], branch, finalize, fetch);
      FetchAllStep(attempts, i, downloaded, fetched);
      if fetched.Err? {
        return Err(fetched.error);
      }
      downloaded := downloaded + fetched.value;
      i := i + 1;
    }
    FetchAllDone(attempts, downloaded);
    return Ok(Downloaded(downloaded));
  }

  /** A map over a sequence that keeps its order: the `map ... collect` of a `par_iter`. */
  function InOrder<T, R>(xs: seq<T>, f: T --> R): (ys: seq<R>)
    requires forall i :: 0 <= i < |xs| ==> f.requires(xs[i])
    ensures |ys| == |xs|
    ensures forall i :: 0 <= i < |xs| ==> ys[i] == f(xs[i])
    decreases |xs|
  {
    if xs == [] then [] else [f(xs[0])] + InOrder(xs[1..], f)
  }

  /** Mapping two parts in order and joining them is mapping the whole. */
  lemma InOrderAppend<T, R>(xs: seq<T>, zs: seq<T>, f: T --> R)
    requires forall i :: 0 <= i < |xs| ==> f.requires(xs[i])
    requires forall i :: 0 <= i < |zs| ==> f.requires(zs[i])
    ensures forall i :: 0 <= i < |xs + zs| ==> f.requires((xs + zs)[i])
    ensures InOrder(xs + zs, f) == InOrder(xs, f) + InOrder(zs, f)
  {
    var whole := xs + zs;
    forall i | 0 <= i < |whole|
      ensures whole[i] == if i < |xs| then xs[i] else zs[i - |xs|]
    {
    }
    var left, right := InOrder(xs, f), InOrder(zs, f);
    var joined := InOrder(whole, f);
    forall i | 0 <= i < |whole|
      ensures joined[i] == (left + right)[i]
    {
      if i < |xs| {
        assert joined[i] == f(xs[i]) == left[i];
      } else {
        assert joined[i] == f(zs[i - |xs|]) == right[i - |xs|];
      }
    }
  }

  /**
   * `parallel`: one result per item, in manifest order, each the outcome of
   * downloading that item alone.
   */
  function Parallel(items: seq<Item>, branch: string, finalize: Finalizer, fetch: Fetcher)
    : (results: seq<Result<DownloadResult, IoError>>)
    requires forall i :: 0 <= i < |items| ==> Downloadable(items[i], branch, finalize, fetch)
    ensures |results| == |items|
    ensures forall i :: 0 <= i < |items| ==> results[i] == DownloadOutcome(items[i], branch, finalize, fetch)
  {
    InOrder(items, DownloadOf(branch, finalize, fetch))
  }

  /** `download` for a fixed branch, template engine and fetcher. */
  function DownloadOf(branch: string, finalize: Finalizer, fetch: Fetcher): Item --> Result<DownloadResult, IoError> {
    item requires Downloadable(item, branch, finalize, fetch) => DownloadOutcome(item, branch, finalize, fetch)
  }

  /** Results of separate parts of the manifest are the parts of the result. */
  lemma ParallelAppend(a: seq<Item>, b: seq<Item>, branch: string, finalize: Finalizer, fetch: Fetcher)
    requires forall i :: 0 <= i < |a| ==> Downloadable(a[i], branch, finalize, fetch)
    requires forall i :: 0 <= i < |b| ==> Downloadable(b[i], branch, finalize, fetch)
    ensures forall i :: 0 <= i < |a + b| ==> Downloadable((a + b)[i], branch, finalize, fetch)
    ensures Parallel(a + b, branch, finalize, fetch) == Parallel(a, branch, finalize, fetch) + Parallel(b, branch, finalize, fetch)
  {
    InOrderAppend(a, b, DownloadOf(branch, finalize, fetch));
  }
}
