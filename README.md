# Direct downloads and pool matching of debrepbuild

This project is a Dafny model of two parts of debrepbuild, a tool that builds
Debian repositories from a manifest:

- **Direct downloads.** For each manifest item, the tool takes the item's
  URL templates in order and expands each one into a URL. From the URL's
  last path component it derives the file extension, the architecture and
  the pool path `repo/pool/<branch>/main/...`. It then fetches the file to
  that path. The byte counts are summed, and the first error ends the item.
  All items are processed with one result per item, in manifest order.
- **Pool helpers.** These infer an architecture from a file stem, filter the
  walk over the pool down to directories and `.deb` files, and match a pool
  file back to the manifest package it belongs to.

The project has four files:

- `wrappers.dfy`: `Option` and `Result`.
- `text.dfy`: the string searches the source relies on: `find`, `rfind`,
  `ends_with`, and the "after the last separator" and "up to the first
  separator" slices.
- `misc.dfy`: `get_arch_from_stem`, `match_deb` and the filter of `walk_debs`
  (src/misc.rs).
- `direct.dfy`: `gen_filename`, the destination block of `download`, the
  download loop and `parallel` (src/repo/download/direct.rs).

Strings are sequences of characters, and the source's byte indices are read
as character indices. Each slice that would panic in the source is a
precondition. When the panic depends on a per-entry URL, the model records it
as an explicit outcome instead (`Direct.Attempt.Panics`).

The URL template expansion `UrlTokenizer::finalize` is a function-valued
parameter. So is the HTTP fetch `request::file`, which reports bytes or an
error.

`Direct.Download` is an imperative loop over the item's file entries. It is
proved equal to the functional outcome `Direct.DownloadOutcome`. That outcome
is the sum of the bytes of every entry, or the error of the first entry that
fails. The lemmas `FetchAll*` characterise it.

Three quirks of the code are kept as written:

- A URL without `/` loses its first character, because the code slices from
  `rfind('/').unwrap_or(0) + 1`.
- A stem without `_` that ends in neither `amd64` nor `i386` also loses its
  first character when its architecture is inferred.
- A file such as `footar.gz` gets extension `tar.gz` and stem `fo`. The
  `tar` check looks at the three characters before the `.`, whether or not
  another `.` precedes them.

## Model

| member | source | states |
|---|---|---|
| Text.Find | src/misc.rs:29 | `find`: no result exactly when the element is absent; otherwise the first index holding it |
| Text.RFind | src/repo/download/direct.rs:40 | `rfind`: no result exactly when the element is absent; otherwise the last index holding it |
| Text.AfterLast | src/misc.rs:50 | `rfind(x).unwrap_or(0) + 1`: just after the last `x`, or 1 when there is none |
| Text.UpTo | src/misc.rs:51 | `find('-').map_or(s, \|p\| &s[..p])`: the longest prefix without the separator, ending at the separator or at the end of the text |
| Text.AfterLastUnique | src/misc.rs:50 | any index that is just after the last `x`, or that is 1 for a text without `x`, is `AfterLast` |
| Text.RFindAt | src/repo/download/direct.rs:43 | an index holding `x` with no `x` after it is the result of `rfind` |
| Text.EndsWith | src/misc.rs:15 | `ends_with`: the text's last `\|suffix\|` elements are the suffix (a definition; `Misc.IsDeb` and `Direct.Extension` are stated with it) |
| Text.EndsWithTail | src/misc.rs:15 | a text ending in `a + b` also ends in `b` |
| Misc.ArchFromStem | src/misc.rs:45-52 | a stem ending in `amd64` gives `amd64`; otherwise one ending in `i386` gives `i386`; the result never holds `_` or `-` and always occurs in the stem |
| Misc.InfixLacks | src/misc.rs:50-51 | a character missing from a text is missing from every run of it, so the inferred architecture holds nothing its stem does not |
| Misc.ArchFromStemFallback | src/misc.rs:50-51 | without a known suffix, the architecture is the run that starts just after the last `_` (or at index 1) and ends at the first `-` or at the end |
| Misc.ArchFromStemKnown | src/misc.rs:46-47 | `foo_1.0_amd64` gives `amd64` and `foo_1.0_i386` gives `i386` |
| Misc.ArchFromStemCustom | src/misc.rs:50-51 | `pkg_1.0_armhf-custom` gives `armhf` |
| Misc.ArmhfStem | src/misc.rs:46 | `pkg_1.0_armhf-custom` ends in neither known architecture, and its last `_` is at index 7 |
| Misc.ArmhfRun | src/misc.rs:51 | in `pkg_1.0_armhf-custom`, the only `-`-free run from index 8 that ends at a `-` or at the end is `armhf` |
| Misc.ArchFromStemDropsFirst | src/misc.rs:50 | a stem without `_`, without `-` and without a known suffix loses exactly its first character |
| Misc.PackageName | src/misc.rs:29 | the package name of a pool file is the text before its first `_`; it holds no `_` and is followed by one |
| Misc.PackageNameOfPrefix | src/misc.rs:29 | a name without `_` followed by `_` and any text reads back as that name |
| Misc.MatchDeb | src/misc.rs:22-33 | directories never match; a file matches exactly when its package name is in the manifest, and then yields its path and the first index of that name |
| Misc.MatchDebAt | src/misc.rs:31-32 | a file whose package name first occurs at index `i` matches with its path and `i` |
| Misc.MatchDebFound | src/misc.rs:28-32 | any `a_...` file matches `a` at index 0 of `["a", "b"]` |
| Misc.MatchDebMissing | src/misc.rs:28-32 | no `c_...` file matches anything in `["a", "b"]` |
| Misc.IsDeb | src/misc.rs:11-17 | `is_deb`: directories pass, and a file passes exactly when its name ends in `.deb` (a definition; `Misc.WalkDebs` states what the walk keeps with it) |
| Misc.Kept | src/misc.rs:19 | one walk step: a failed step contributes nothing, a found entry contributes itself exactly when `is_deb` keeps it (a definition; `Misc.WalkDebs` and `Misc.WalkDebsAppend` are stated with it) |
| Misc.WalkDebs | src/misc.rs:10-19 | the walk keeps only entries it found, each a directory or a `.deb` file, and keeps every such entry; errors are dropped |
| Misc.WalkDebsAppend | src/misc.rs:19 | the walk's filter keeps traversal order: it distributes over concatenation |
| Direct.GenFilenameShape | src/repo/download/direct.rs:20-26 | source artifacts are `<name>_<version>.<ext>`; `ddeb` is `<name>-dbgsym_<version>_<arch>.ddeb`; everything else is `<name>_<version>_<arch>.<ext>`; every file name ends in `.<ext>` |
| Direct.IsSourceExt | src/repo/download/direct.rs:21 | the extension is `tar.gz`, `tar.xz` or `dsc`: the test that picks the file name without an architecture, and the `main/source/` subtree at src/repo/download/direct.rs:62 (a definition; `Direct.GenFilenameShape` and `Direct.PoolPathShape` are stated with it) |
| Direct.GenFilename | src/repo/download/direct.rs:20-26 | `gen_filename` as written, both branches with the `ddeb` test (a definition; its shapes are `Direct.GenFilenameShape`, and its inverse through the package name is `Direct.FilenameRoundTrip`) |
| Direct.FilenameBinary | src/repo/download/direct.rs:24 | `foo`, `1.2`, `amd64`, `deb` give `foo_1.2_amd64.deb` |
| Direct.FilenameSource | src/repo/download/direct.rs:21-22 | `foo`, `1.2`, any architecture, `tar.gz` give `foo_1.2.tar.gz` |
| Direct.FileComponent | src/repo/download/direct.rs:40 | the file component is a proper suffix of the URL with no `/`; it follows the last `/`, or is the URL without its first character when there is no `/` |
| Direct.ExtensionStart | src/repo/download/direct.rs:42-51 | `ext_pos` lies within the file component |
| Direct.Extension | src/repo/download/direct.rs:42-53 | the extension is a suffix of the file; it is `tar.gz` or `tar.xz` exactly when the file ends that way; otherwise it is the `.`-free run after the last `.` |
| Direct.ExtensionSlice | src/repo/download/direct.rs:42-53 | the run from `ext_pos` to the end is a suffix of the file; it is `tar.gz` or `tar.xz` exactly when the file ends that way, and otherwise it holds no `.` and follows one |
| Direct.TarballExtensionStart | src/repo/download/direct.rs:44-46 | a file ending in `tar.gz` or `tar.xz` has `ext_pos` six characters from its end |
| Direct.PlainExtensionStart | src/repo/download/direct.rs:43-50 | without a tarball suffix, `ext_pos` is just after the last `.` |
| Direct.TarWindowIsSuffix | src/repo/download/direct.rs:44-46 | when `tar` precedes a `.gz` or `.xz` tail, the file ends in `tar.gz` or `tar.xz` |
| Direct.TarballDot | src/repo/download/direct.rs:43-47 | a file ending in `tar.gz` or `tar.xz` has its last `.` three from the end, preceded by `tar` |
| Direct.TarballSuffixIn | src/repo/download/direct.rs:43-45 | a `tar.<gz\|xz>` suffix puts the file's last `.` three characters from the end |
| Direct.TarballSuffix | src/repo/download/direct.rs:44-45 | `tar.gz` and `tar.xz` are `tar`, a `.`, and a compression suffix without `.` |
| Direct.Stem | src/repo/download/direct.rs:56 | the stem is a prefix of the file, one character shorter than everything before the extension |
| Direct.StemOfPlainFile | src/repo/download/direct.rs:53-56 | for a plain extension, the file is the stem, a `.` and a `.`-free extension |
| Direct.StemOfTarball | src/repo/download/direct.rs:46-56 | for a `.tar.gz` or `.tar.xz` file, the stem is everything before `.tar.` |
| Direct.GluedTarSuffix | src/repo/download/direct.rs:45-56 | `footar.gz` has extension `tar.gz` and stem `fo` |
| Direct.IsCompressed | src/repo/download/direct.rs:44 | the tail after the last `.` is `gz` or `xz` (a definition; `Direct.HasExtension` and `Direct.ExtensionStart` are stated with it) |
| Direct.HasExtension | src/repo/download/direct.rs:43-45 | the file component has a `.`, and when the tail after the last `.` is `gz` or `xz` there are three characters before it, so `ext_pos` and the `tar` window can be sliced (a definition: the panic condition) |
| Direct.PoolPathShape | src/repo/download/direct.rs:61-68 | source artifacts go to `repo/pool/<branch>/main/source/`, everything else to `.../main/binary-<arch>/`; then the name's first character, the name, and the file name |
| Direct.PoolPath | src/repo/download/direct.rs:61-68 | the pool path as written, `name[0..1]` included (a definition; its shapes are `Direct.PoolPathShape` and `Direct.PoolPathPrefix`) |
| Direct.PoolPathPrefix | src/repo/download/direct.rs:67 | every pool path starts with `repo/pool/<branch>/main/` |
| Direct.PoolPathBinary | src/repo/download/direct.rs:63-67 | the directory of `foo` on `stable` for `amd64` is `repo/pool/stable/main/binary-amd64/f/foo/` |
| Direct.PoolPathSource | src/repo/download/direct.rs:62-67 | the directory of a `foo` tarball on `stable` is `repo/pool/stable/main/source/f/foo/`, whatever the architecture |
| Direct.Resolvable | src/repo/download/direct.rs:40-56 | the destination block does not panic: a non-empty URL and name, a file component with an extension, and a non-empty stem when the architecture is inferred (a definition: the panic condition, src/repo/download/direct.rs:67 and src/misc.rs:50) |
| Direct.Resolve | src/repo/download/direct.rs:39-69 | the destination's extension comes from the file component; its architecture is the override verbatim or the one inferred from the stem; its file name and path are built from these |
| Direct.ResolveShape | src/repo/download/direct.rs:59-68 | a destination's file name ends in `.<extension>`; its path ends in `/<name>/<file name>` and starts with `repo/pool/<branch>/main/` |
| Direct.FilenameRoundTrip | src/repo/download/direct.rs:20-26 | for a name without `_` and any extension but `ddeb`, the pool file name reads back as that name (src/misc.rs:29) |
| Direct.DdebFilenameName | src/repo/download/direct.rs:22-24 | a `ddeb` file name reads back as `<name>-dbgsym` (src/misc.rs:29) |
| Direct.DownloadedDebIsMatched | src/repo/download/direct.rs:53-68 | for a `.deb` of a package without `_`, whose name, version and architecture override have no `/`, the pool path's last component is the generated file name; the walk keeps that entry and matches it to the package's first manifest index (src/misc.rs:11-33) |
| Direct.PoolDebIsMatched | src/repo/download/direct.rs:59-67 | the same for any path ending in `/` and a `.deb` file name built from `/`-free parts |
| Direct.DestinationIsMatched | src/repo/download/direct.rs:59-68 | the same for a destination whose file name and path are built from its own `/`-free architecture |
| Direct.DebFilenameLacksSlash | src/repo/download/direct.rs:24 | a `.deb` file name has no `/` when its name, version and architecture have none |
| Direct.FileComponentOfSuffix | src/repo/download/direct.rs:40 | a path ending in `/` and a `/`-free text has that text after its last `/` |
| Direct.ResolvedArchLacks | src/repo/download/direct.rs:54-57 | a character missing from the override and from the URL's file component is missing from the destination's architecture |
| Direct.AttemptOfTemplateError | src/repo/download/direct.rs:31-37 | an unsupported template variable ends the entry with invalid data `unsupported variable: <text>` |
| Direct.AttemptOfResolvedUrl | src/repo/download/direct.rs:39-72 | with a resolved URL, the entry finishes exactly when its destination can be derived, and then yields what the fetch to that destination reports |
| Direct.EntryName | src/repo/download/direct.rs:30 | the entry's name override, or the item's name (a definition) |
| Direct.AttemptEntry | src/repo/download/direct.rs:30-72 | one pass of the loop body: the invalid-data error of an unsupported variable, a panic when the destination block cannot be sliced, or the fetch to the destination (a definition; `Direct.DownloadEntry` is the method proved against it) |
| Direct.AttemptFetchesIntoPool | src/repo/download/direct.rs:39-72 | an entry that does not panic fetches to a path under `repo/pool/<branch>/main/`, ending in `/<name>/<file name>` |
| Direct.Attempts | src/repo/download/direct.rs:29 | one attempt per file entry |
| Direct.AttemptsAt | src/repo/download/direct.rs:29 | the attempt at position `j` is that of the entry at position `j` |
| Direct.NoPanic | src/repo/download/direct.rs:29-72 | the loop does not panic: each entry it reaches finishes, and it reaches the next entry only after a success (a definition; the requires of `Direct.FetchAll` and `Direct.Download`, with `Direct.NoPanicAt` for the loop) |
| Direct.AddBytes | src/repo/download/direct.rs:72 | `downloaded += …?`: a success adds its bytes to the running total, an error passes through (a definition; `Direct.FetchAllOk` and `Direct.FetchAllAppend` give its effect over a run) |
| Direct.FetchAll | src/repo/download/direct.rs:28-76 | the byte sum of the attempts in order, stopping at the first error (a definition; its meaning is `Direct.FetchAllOk`, `Direct.FetchAllErr`, `Direct.FetchAllFailFast` and `Direct.FetchAllAppend`) |
| Direct.Downloadable | src/repo/download/direct.rs:29-72 | `download` does not panic on the item: `Direct.NoPanic` of its attempts (a definition; the requires of `Direct.DownloadOutcome`, `Direct.Download` and `Direct.Parallel`) |
| Direct.DownloadOutcome | src/repo/download/direct.rs:28-76 | what `download` returns: `Downloaded` with the byte sum, or the first error (a definition; `Direct.Download` is proved equal to it) |
| Direct.FetchAllAppend | src/repo/download/direct.rs:28-73 | running two parts of the entries in sequence is running the whole; an error in the first part ends the run before the second |
| Direct.FetchAllOk | src/repo/download/direct.rs:72-76 | the run succeeds exactly when every entry finishes with a byte count |
| Direct.FetchAllFailFast | src/repo/download/direct.rs:72 | an error after successful entries is the run's result, whatever follows it |
| Direct.FetchAllErr | src/repo/download/direct.rs:72 | a failed run has a first failing entry; every entry before it succeeded, and its error is the run's |
| Direct.NoPanicAt | src/repo/download/direct.rs:29-72 | every entry the loop reaches finishes |
| Direct.FetchAllStep | src/repo/download/direct.rs:72 | one loop turn: an error ends the run with that error; bytes are added to the running total |
| Direct.FetchAllDone | src/repo/download/direct.rs:73-76 | after the last entry, the run's result is the running total |
| Direct.DownloadEntry | src/repo/download/direct.rs:30-72 | one loop body returns exactly the entry's attempt outcome |
| Direct.Download | src/repo/download/direct.rs:17-77 | `download` returns the sum of the bytes of all entries, or the error of the first entry that fails |
| Direct.InOrder | src/repo/download/direct.rs:82-85 | `par_iter().map(..).collect()`: one result per element, in order, each the function applied to that element |
| Direct.InOrderAppend | src/repo/download/direct.rs:82-85 | mapping two parts and joining them is mapping the whole |
| Direct.Parallel | src/repo/download/direct.rs:80-86 | `parallel`: one result per item, in manifest order, each that item's `download` outcome |
| Direct.DownloadOf | src/repo/download/direct.rs:84 | the closure `\|item\| download(&client, item, branch)`: defined on items that do not panic, giving their `download` outcome (a definition; `Direct.Parallel` is stated with it) |
| Direct.ParallelAppend | src/repo/download/direct.rs:80-86 | the results for two parts of a manifest are the two parts of the results |

## Left out

- `unlink`, `read_to_string`, `read`, `write` and `initial_buffer_size` (src/misc.rs:36-76) are left out. They are thin wrappers over the OS and the file system.
- src/repo/build/rsync.rs is left out. It creates the destination directory when the source is a directory, reporting a failure as an `Other` error, and then runs the external `rsync` command. None of this is part of the modelled core.
- `UrlTokenizer::finalize` and `request::file` are not part of this model. They are the `finalize` and `fetch` parameters. The `reqwest::Client` is folded into `fetch`.
- `WalkDir` is not modelled. The traversal is the walk given as a sequence. Its errors are `Failed` steps, which `flat_map(|e| e.ok())` drops. `filter_entry` prunes no subtree, because every directory passes the filter.
- `path.is_dir()` is a field of `Misc.DirEntry`, not a file-system query.
- `to_str()` failures on non-UTF-8 names and paths are left out. In `is_deb` they reject the file, and in `match_deb` they give no match. Names and paths are modelled as valid strings.
- Rust slices strings at byte offsets and panics at a non-boundary. The model indexes characters, so it does not capture panics from multi-byte characters at `name[0..1]` or in the other slices.
- Panics on the shared code paths are preconditions:
  - an empty stem, for `Misc.ArchFromStem`;
  - a file name without `_`, for `Misc.MatchDeb` and `Misc.PackageName`;
  - an empty URL or name, and a file component without `.` or too short for the `tar` window, via `Direct.Resolvable`.
- For a single entry, that panic is `Direct.Attempt.Panics`. `Direct.Download` and `Direct.Parallel` require that no entry they reach panics, and they do not model the unwinding.
- Direct.DownloadedDebIsMatched: requires that the package name, the version and the architecture override hold no `/`. With a `/` in one of them the generated file name spans directories, the walk reports only its last component, and the file need not match its package.
- `Direct.Download`: the byte total is a mathematical natural. The `u64` wrap-around of `downloaded +=` is not modelled.
- `Direct.Parallel` is a sequential, order-preserving map. Concurrency is not modelled: the rayon thread pool, and which item's panic, if any, propagates. What `collect` on an indexed parallel iterator guarantees, and what the model keeps, is order: result `i` is `download` of item `i`.
- `fetch` is stateless: its report depends only on the URL, the checksum and the destination. `request::file` looks at the disk, and the model does not capture that. So the skip of a file that already exists (the doc comment at src/repo/download/direct.rs:16) is not modelled. Nor is a fetch that sees what an earlier entry, or a concurrent item with the same destination, wrote.
- `info!` logging is left out.
- `Direct.ErrorKind` has only the kind the modelled code produces (`InvalidData`) and a catch-all. Errors from `fetch` carry whatever kind the fetcher reports.
