/**
 * The pure helpers of the pool reconciliation: architecture inference from a
 * file stem, the package name of a pool file, matching a pool file against the
 * manifest, and the filter applied to the walk over the pool.
 */
module Misc {
  import opened Wrappers
  import opened Text

  /** A directory entry as the walk over the pool yields it. */
  datatype DirEntry = DirEntry(path: string, fileName: string, isDir: bool)

  /** One step of the walk: an entry, or an error reported in its place. */
  datatype WalkItem = Found(entry: DirEntry) | Failed

  // ---------------------------------------------------------------------------
  // Architecture inference
  // ---------------------------------------------------------------------------

  /** `a` occurs as a contiguous run of `s`. */
  ghost predicate IsInfix(a: string, s: string) {
    exists i :: 0 <= i <= |s| - |a| && s[i..][..|a|] == a
  }

  /** What does not occur in a text does not occur in any run of it. */
  lemma InfixLacks(a: string, s: string, c: char)
    requires IsInfix(a, s) && c !in s
    ensures c !in a
  {
    var i :| 0 <= i <= |s| - |a| && s[i..][..|a|] == a;
    assert forall k :: 0 <= k < |a| ==> a[k] == s[i + k];
  }

  /**
   * `get_arch_from_stem`: a stem ending in one of the known architectures
   * (`amd64` checked before `i386`) yields that architecture; any other stem
   * yields the text after its last `_` (or from index 1 when it has none), cut
   * before the first `-`. The slice from index 1 panics on an empty stem.
   */
  function ArchFromStem(stem: string): (arch: string)
    requires stem != []
    ensures EndsWith(stem, "amd64") ==> arch == "amd64"
    ensures !EndsWith(stem, "amd64") && EndsWith(stem, "i386") ==> arch == "i386"
    ensures '_' !in arch && '-' !in arch
    ensures IsInfix(arch, stem)
  {
    if EndsWith(stem, "amd64") then
      assert stem[|stem| - 5..][..5] == "amd64";
      "amd64"
    else if EndsWith(stem, "i386") then
      assert stem[|stem| - 4..][..4] == "i386";
      "i386"
    else
      var start := AfterLast(stem, '_');
      var arch := UpTo(stem[start..], '-');
      assert stem[start..][..|arch|] == arch;
      arch
  }

  /**
   * The fallback of `ArchFromStem`, described without the searches: when no
   * known architecture ends the stem, and `start` is the position just after
   * the stem's last `_` (or 1 when the stem has no `_`), the architecture is
   * the run from `start` up to the first `-` after it, or to the end.
   */
  lemma ArchFromStemFallback(stem: string, start: nat)
    requires stem != [] && !EndsWith(stem, "amd64") && !EndsWith(stem, "i386")
    requires start <= |stem|
    requires (0 < start && stem[start - 1] == '_' && '_' !in stem[start..])
          || (start == 1 && '_' !in stem)
    ensures var arch := ArchFromStem(stem);
      && start + |arch| <= |stem|
      && stem[start..start + |arch|] == arch
      && '-' !in arch
      && (start + |arch| == |stem| || stem[start + |arch|] == '-')
  {
    AfterLastUnique(stem, '_', start);
    assert ArchFromStem(stem) == UpTo(stem[start..], '-');
  }

  /** Example: a stem ending in a known architecture. */
  lemma ArchFromStemKnown()
    ensures ArchFromStem("foo_1.0_amd64") == "amd64"
    ensures ArchFromStem("foo_1.0_i386") == "i386"
  {
    assert "foo_1.0_amd64"[8..] == "amd64";
    assert "foo_1.0_i386"[8..] == "i386";
    assert "foo_1.0_i386"[7..] != "amd64";
  }

  /** The run of `pkg_1.0_armhf-custom` from index 8 up to its first `-`. */
  lemma ArmhfRun(stem: string, arch: string)
    requires stem == "pkg_1.0_armhf-custom"
    requires 8 + |arch| <= |stem| && stem[8..8 + |arch|] == arch && '-' !in arch
    requires 8 + |arch| == |stem| || stem[8 + |arch|] == '-'
    ensures arch == "armhf"
  {
    assert stem[8..13] == "armhf";
    assert stem[13] == '-';
    assert forall k :: 8 <= k < 13 ==> stem[k] != '-';
  }

  /** Example: the fallback cuts `pkg_1.0_armhf-custom` to `armhf`. */
  lemma ArchFromStemCustom(stem: string)
    requires stem == "pkg_1.0_armhf-custom"
    ensures ArchFromStem(stem) == "armhf"
  {
    ArmhfStem(stem);
    ArchFromStemFallback(stem, 8);
    ArmhfRun(stem, ArchFromStem(stem));
  }

  /** `pkg_1.0_armhf-custom` has no known suffix and its last `_` at index 7. */
  lemma ArmhfStem(stem: string)
    requires stem == "pkg_1.0_armhf-custom"
    ensures !EndsWith(stem, "amd64") && !EndsWith(stem, "i386")
    ensures 8 <= |stem| && stem[7] == '_' && '_' !in stem[8..]
  {
    assert stem[15..] != "amd64" && stem[16..] != "i386";
    assert stem[8..] == "armhf-custom";
  }

  /**
   * The index-1 quirk: a stem without `_` and without a known architecture
   * loses its first character instead of being taken whole.
   */
  lemma ArchFromStemDropsFirst(stem: string)
    requires |stem| >= 1 && '_' !in stem && '-' !in stem
    requires !EndsWith(stem, "amd64") && !EndsWith(stem, "i386")
    ensures ArchFromStem(stem) == stem[1..]
  {
    ArchFromStemFallback(stem, 1);
  }

  // ---------------------------------------------------------------------------
  // Pool file names
  // ---------------------------------------------------------------------------

  /**
   * The package name of a pool file: the text before its first `_`. A name
   * without `_` breaks the pool naming contract (the source aborts on it).
   */
  function PackageName(fileName: string): (name: string)
    requires '_' in fileName
    ensures '_' !in name
    ensures |name| < |fileName| && fileName[..|name| + 1] == name + "_"
  {
    var i := Find(fileName, '_').value;
    assert fileName[..i + 1] == fileName[..i] + [fileName[i]];
    fileName[..i]
  }

  /** A name without `_` followed by `_` is read back as that name. */
  lemma PackageNameOfPrefix(name: string, rest: string)
    requires '_' !in name
    ensures '_' in name + "_" + rest
    ensures PackageName(name + "_" + rest) == name
  {
    var s := name + "_" + rest;
    assert s[|name|] == '_';
    var p := PackageName(s);
  }

  // ---------------------------------------------------------------------------
  // Matching pool files against the manifest
  // ---------------------------------------------------------------------------

  /**
   * `match_deb`: directories never match; a file matches the first manifest
   * package whose name equals the file's package name, and yields its path
   * with that index.
   */
  function MatchDeb(entry: DirEntry, packages: seq<string>): (r: Option<(string, nat)>)
    requires entry.isDir || '_' in entry.fileName
    ensures entry.isDir ==> r == None
    ensures !entry.isDir ==> (r.Some? <==> PackageName(entry.fileName) in packages)
    ensures r.Some? ==> && !entry.isDir
                        && r.value.0 == entry.path
                        && r.value.1 < |packages|
                        && packages[r.value.1] == PackageName(entry.fileName)
                        && PackageName(entry.fileName) !in packages[..r.value.1]
  {
    if entry.isDir then None
    else
      match Find(packages, PackageName(entry.fileName))
      case None => None
      case Some(i) => Some((entry.path, i))
  }

  /** A file matches the first manifest position holding its package name. */
  lemma MatchDebAt(entry: DirEntry, packages: seq<string>, i: nat)
    requires !entry.isDir && '_' in entry.fileName
    requires i < |packages| && packages[i] == PackageName(entry.fileName)
    requires PackageName(entry.fileName) !in packages[..i]
    ensures MatchDeb(entry, packages) == Some((entry.path, i))
  {
  }

  /** Example: any `a_...` file matches `a` at index 0 of `["a", "b"]`. */
  lemma MatchDebFound(path: string, rest: string, packages: seq<string>)
    requires packages == ["a", "b"]
    ensures '_' in "a_" + rest
    ensures MatchDeb(DirEntry(path, "a_" + rest, false), packages) == Some((path, 0))
  {
    assert "a" + "_" + rest == "a_" + rest;
    PackageNameOfPrefix("a", rest);
    MatchDebAt(DirEntry(path, "a_" + rest, false), packages, 0);
  }

  /** Example: no `c_...` file matches anything in `["a", "b"]`. */
  lemma MatchDebMissing(path: string, rest: string, packages: seq<string>)
    requires packages == ["a", "b"]
    ensures '_' in "c_" + rest
    ensures MatchDeb(DirEntry(path, "c_" + rest, false), packages) == None
  {
    assert "c" + "_" + rest == "c_" + rest;
    PackageNameOfPrefix("c", rest);
    assert "c" != packages[0] && "c" != packages[1];
  }

  // ---------------------------------------------------------------------------
  // The walk over the pool
  // ---------------------------------------------------------------------------

  /** `is_deb`: every directory is entered; a file is kept only if it is a `.deb`. */
  predicate IsDeb(entry: DirEntry) {
    if entry.isDir then true else EndsWith(entry.fileName, ".deb")
  }

  /** The entry a walk step contributes to `walk_debs`, if any. */
  function Kept(step: WalkItem): seq<DirEntry> {
    match step
    case Failed => []
    case Found(e) => if IsDeb(e) then [e] else []
  }

  /**
   * `walk_debs` over a traversal: errors are dropped, and so are files that
   * are not `.deb`. Because every directory passes the filter, no subtree is
   * pruned, so the traversal itself is the walk as given.
   */
  function WalkDebs(walk: seq<WalkItem>): (kept: seq<DirEntry>)
    ensures |kept| <= |walk|
    ensures forall e :: e in kept ==> Found(e) in walk && (e.isDir || EndsWith(e.fileName, ".deb"))
    ensures forall i :: 0 <= i < |walk| && walk[i].Found? && IsDeb(walk[i].entry) ==> walk[i].entry in kept
    decreases |walk|
  {
    if walk == [] then [] else Kept(walk[0]) + WalkDebs(walk[1..])
  }

  /** The walk keeps the traversal order: filtering distributes over concatenation. */
  lemma {:induction false} WalkDebsAppend(a: seq<WalkItem>, b: seq<WalkItem>)
    ensures WalkDebs(a + b) == WalkDebs(a) + WalkDebs(b)
    decreases |a|
  {
    if a == [] {
      assert a + b == b;
    } else {
      assert (a + b)[1..] == a[1..] + b;
      WalkDebsAppend(a[1..], b);
    }
  }
}
