# Image-list generator, modelled in Dafny

`generate-image-list.js` is a build helper for a static game site. It walks
the image tree `images/game` under the script's own directory, depth first.
It keeps every regular file whose lower-cased extension is `.jpg`, `.jpeg`,
`.png`, `.gif` or `.webp`. Each kept file goes into a dictionary of lists,
keyed by the path of the file's own directory relative to that root. The
root itself is keyed `.`, and backslashes in keys become `/`. The helper
then turns every collected path into a site-absolute URL: the path relative
to the script's directory with `/` separators, prefixed by `/` or by
`/<repositoryName>/` when a repository name is set. It sorts each category's
list in place and writes the dictionary out as JSON. When the root
directory does not exist, the run throws before it scans or writes anything.

The model has these modules:

- `Paths`: the helpers of Node's `path` module the script uses, namely `join`,
  `relative` and `extname`. It also has the backslash-to-slash rewrite and
  lower-casing.
- `CodeUnitOrder`: the default order of `Array.prototype.sort` on strings,
  and an in-place insertion sort on an `array<string>`. The sort is proved
  to leave the array sorted and a permutation of its old contents.
- `ImageScan`: the tree of directory entries and the settings. It holds the
  category key, create-on-first-insert grouping, and a functional fold
  `Scan`. It also has the imperative walk: the class `ImageList`, whose
  `categories` map is mutated by the mutually recursive methods
  `ScanDirectory` and `VisitEntry`. These are proved equal to `Scan`.
- `ScanProperties`: an independent description of what the walk must record.
  `Files` lists every regular file reached, and `Collected` the images among
  them with their keys. The module proves that `Scan` records exactly that.
  From this follow:
  - which categories exist;
  - which paths each category holds, and in which order;
  - how many paths there are in all;
  - what switching off sub-directories does;
  - that in a well-formed tree a key names one directory only.
- `ImageManifest`: the URL rewrite and its inverse, the `formatPaths` loop
  with its in-place sort, and the whole run `GenerateImageList` with its
  missing-root error.
- `InheritedKeys`: the walk as the JavaScript behaves on a plain object `{}`,
  for the finding below.
- `CommandLine`: the `--repo <name>` override of the repository name.
- `Wrappers`: `Option` and `Result`.

The filesystem is an input: a listing `seq<Entry>` of `File(name)`,
`Dir(name, children)` and `Other(name)`, in enumeration order. The root's
listing is `None` when the root does not exist. The host separator `sep`
and the script's directory `baseDir` are parameters of `Config`.

## Model

| member | source | states |
|---|---|---|
| ImageManifest.DefaultManifestSize | generate-image-list.js:5-23 | with the shipped settings (sub-directories walked, no repository name) the manifest lists exactly as many URLs as there are allow-listed files anywhere in the tree |
| ImageManifest.DefaultManifestUrls | generate-image-list.js:5-23 | with the shipped settings every URL of the manifest starts with `/images/game/`, on either host separator |
| ImageScan.RootDir | generate-image-list.js:7 | the scanned root is `images/game` under the script's directory: below it and different from it |
| ImageScan.CategoryKey | generate-image-list.js:84-85 | a key never contains `\`, and the root's key is `.` |
| ImageScan.Insert | generate-image-list.js:88-93 | create-on-first-insert then push: the key set gains the key, its list gains the path at the end, and every other list is unchanged |
| ImageScan.ImageList.constructor | generate-image-list.js:36 | the dictionary starts empty |
| ImageScan.Scan | generate-image-list.js:69-97 | the walk as a fold over a listing; ScanProperties.ScanRecordsCollected gives its meaning: it appends exactly the images `Collected` lists, in depth-first order |
| ImageScan.Visit | generate-image-list.js:72-95 | one entry of the walk as a function; ScanProperties.VisitFileRecorded and ScanProperties.VisitDirRecorded give its meaning |
| ImageScan.IsImage | generate-image-list.js:79-82 | the extension filter; ScanProperties.IsImageMeaning states it without `extname`, and ScanProperties.IsImageCaseInsensitive its case blindness |
| ImageScan.ScanDirectory | generate-image-list.js:69-97 | the loop over a listing leaves in `categories` exactly the fold `Scan` of the listing over the old dictionary |
| ImageScan.VisitEntry | generate-image-list.js:72-95 | one turn of the loop: recursion into a directory only when `includeSubdirectories` holds, an allow-listed file appended under its directory's key, anything else skipped |
| ImageScan.AddImage | generate-image-list.js:88-93 | filing a path creates the category's list on its first image and appends to it otherwise, leaving every other category unchanged |
| ScanProperties.Files | generate-image-list.js:69-97 | the regular files a walk reaches lie below its start; without recursion every file listed is a top-level `File` of the start directory, and every top-level `File` is listed |
| ScanProperties.ScanRecordsCollected | generate-image-list.js:69-97 | the walk appends, in depth-first enumeration order, exactly the images of the tree, each under its own directory's key |
| ScanProperties.VisitRecordsCollected | generate-image-list.js:72-95 | one entry appends exactly its own images |
| ScanProperties.VisitFileRecorded | generate-image-list.js:79-94 | a regular file is appended exactly when it is an image |
| ScanProperties.VisitDirRecorded | generate-image-list.js:76-78 | a directory contributes exactly the images below it when sub-directories are walked, and nothing otherwise |
| ScanProperties.InsertAllAt | generate-image-list.js:88-93 | a key exists after a series of insertions exactly when it existed or was inserted; its list is the old list followed by the inserted paths in order |
| ScanProperties.ManifestCategories | generate-image-list.js:84-93 | a category exists exactly when some reached image lies directly in a directory with that key; its list is those images' paths in enumeration order |
| ScanProperties.ManifestPaths | generate-image-list.js:73-93 | a path is listed under a key exactly when it is the joined path of a reached image whose directory has that key |
| ScanProperties.WithoutSubdirectories | generate-image-list.js:76-78 | with `includeSubdirectories` false, only the root's own images are listed, all under `.` |
| ScanProperties.TotalEntriesInsert | generate-image-list.js:93 | every push adds exactly one listed path |
| ScanProperties.ImagesCounted | generate-image-list.js:76-82 | with sub-directories walked, the images collected are as many as the allow-listed files anywhere in the tree |
| ScanProperties.ManifestSize | generate-image-list.js:72-95 | the paths listed over all categories are as many as the images reached, and with sub-directories walked as many as the allow-listed files of the tree |
| ScanProperties.FilesBelowByNames | generate-image-list.js:73 | in a well-formed tree every file reached has a well-formed name in a directory that lies below the start through well-formed names |
| ScanProperties.SubdirectoryKey | generate-image-list.js:84-85 | below the root a directory's key is its relative path with `/` separators, and never `.` |
| ScanProperties.KeyInjective | generate-image-list.js:84-85 | two directories reached with equal keys are the same directory |
| ScanProperties.KeysIdentifyDirectories | generate-image-list.js:84-85 | in a well-formed tree the key `.` belongs to the root alone, and no image is filed under another directory's (so also an ancestor's) key |
| ScanProperties.IsImageMeaning | generate-image-list.js:10 | a name is kept exactly when it has a `.` after its first character and the part from its last `.`, lower-cased, is one of the five allowed extensions |
| ScanProperties.IsImageCaseInsensitive | generate-image-list.js:81-82 | names that agree after lower-casing are kept or dropped together |
| Paths.Join | generate-image-list.js:73 | the joined path is the directory, one separator, then the name |
| Paths.Relative | generate-image-list.js:84 | the relative path of the base is empty, and any other path below the base is the base, a separator and the relative path |
| Paths.JoinWithin | generate-image-list.js:73 | a joined entry lies below its directory and below every directory its directory lies below, and its relative path extends the directory's by one name |
| Paths.ToPosix | generate-image-list.js:85 | the rewrite keeps the length, turns every `\` into `/`, changes no other character, and leaves no `\` |
| Paths.FromPosixToPosix | generate-image-list.js:109 | on a path whose only separator is the host's, the rewrite is undone by turning `/` back into the separator |
| Paths.ToPosixInjective | generate-image-list.js:85 | two such paths with the same rewrite are equal |
| Paths.ToLowerAscii | generate-image-list.js:81 | lower-casing keeps the length and lowers each letter in place |
| Paths.LastDot | generate-image-list.js:81 | the position of the last `.`, absent exactly when there is none |
| Paths.ExtName | generate-image-list.js:81 | `path.extname` of an entry name; Paths.ExtNameMeaning states the suffix it returns and its three empty cases |
| Paths.ExtNameMeaning | generate-image-list.js:81 | the extension is a suffix starting at the last `.`, and empty exactly when there is no `.`, the only `.` is the first character, or the name is `..` |
| Paths.ExtNameLower | generate-image-list.js:81 | taking the extension and lower-casing commute |
| CodeUnitOrder.LessEq | generate-image-list.js:126 | the default comparison of `sort`; CodeUnitOrder.LessEqIsFirstDifferenceOrder proves it equal to the prefix-or-first-difference order |
| CodeUnitOrder.LessEqIsFirstDifferenceOrder | generate-image-list.js:126 | the order is prefix-or-smaller-at-the-first-difference, the order of the default `sort` |
| CodeUnitOrder.LessEqTotal | generate-image-list.js:126 | any two strings are comparable |
| CodeUnitOrder.LessEqAntisymmetric | generate-image-list.js:126 | strings ordered both ways are equal |
| CodeUnitOrder.LessEqTransitive | generate-image-list.js:126 | the order is transitive |
| CodeUnitOrder.SortedUnique | generate-image-list.js:126 | two sorted lists with the same elements are equal, so the sorted result does not depend on the sort used |
| CodeUnitOrder.InsertionSort | generate-image-list.js:126 | the in-place sort leaves the array sorted and a permutation of its old contents |
| ImageManifest.HasRepositoryName | generate-image-list.js:114 | the truthiness test of `config.repositoryName`: a name that is set and not empty; ImageManifest.UrlPrefix and ImageManifest.UrlForm state what depends on it |
| ImageManifest.UrlPrefix | generate-image-list.js:114-120 | every URL starts and its prefix ends with `/`; the prefix is longer than `/` exactly when a non-empty repository name is set |
| ImageManifest.FormatPath | generate-image-list.js:104-123 | a URL is the prefix followed by the path relative to the script's directory with `/` separators, and holds a `\` only if the repository name does |
| ImageManifest.UrlForm | generate-image-list.js:114-120 | the URL is `/<repository>/<relative>` when a non-empty repository name is set and `/<relative>` otherwise |
| ImageManifest.UrlToFilePath | generate-image-list.js:106-119 | the inverse rewrite yields a path exactly for URLs that carry the site's prefix, and that path lies below the script's directory |
| ImageManifest.FormatPathRoundTrip | generate-image-list.js:106-119 | the inverse rewrite of a file's URL is the file's path |
| ImageManifest.FormatPathInjective | generate-image-list.js:104-123 | distinct files get distinct URLs |
| ImageManifest.FormatAll | generate-image-list.js:104-123 | the `map` step keeps the length and turns the i-th path into the i-th URL |
| ImageManifest.SortedUrls | generate-image-list.js:104-126 | one category's URLs come out sorted and are a permutation of its files' URLs in order |
| ImageManifest.FormatPaths | generate-image-list.js:100-130 | the result has the same categories as its input, each holding its files' URLs sorted (a permutation of the mapped list) |
| ImageManifest.FormattingUnique | generate-image-list.js:125-126 | the formatted dictionary of a given input is unique |
| ImageManifest.FormatAllPermutation | generate-image-list.js:104 | mapping two permutations of a list gives two permutations of URLs |
| ImageManifest.FormattingIgnoresOrder | generate-image-list.js:103-127 | categories that hold the same files in a different order format to the same dictionary |
| ImageManifest.FormattedContents | generate-image-list.js:103-127 | a formatted category is as long as its input and holds exactly the URLs of its files, each with the site's prefix |
| ImageManifest.ScannedPathsWithinBase | generate-image-list.js:106 | every path a walk from the root records lies below the script's directory, so its relative path exists |
| ImageManifest.GenerateImageList | generate-image-list.js:31-40 | a missing root gives the missing-directory error and nothing else; otherwise the result is the formatting of the walk of the root's listing |
| ImageManifest.ManifestUrls | generate-image-list.js:36-40 | end to end: a URL is listed under a key exactly when it is the URL of a reached image whose directory has that key |
| ImageManifest.ManifestUrlListed | generate-image-list.js:36-40 | every listed URL is that of an image reached from the root, under its directory's key |
| ImageManifest.ManifestUrlReached | generate-image-list.js:36-40 | every image reached from the root has its URL listed under its directory's key |
| ImageManifest.RecordedPathRelative | generate-image-list.js:106 | in a well-formed tree the relative path of every recorded file uses the host separator only |
| ImageManifest.UrlsIdentifyFiles | generate-image-list.js:104-123 | in a well-formed tree no two files reached share a URL |
| CommandLine.IndexOf | generate-image-list.js:236 | the first position of an argument, absent exactly when it is not there |
| CommandLine.RepositoryOverride | generate-image-list.js:236-240 | the configured name changes only to a non-empty argument, and only when `--repo` is present |
| CommandLine.RepositoryOverrideMeaning | generate-image-list.js:236-240 | the value right after the first `--repo` wins when there is one and it is not empty; otherwise the configured name stays |
| InheritedKeys.InsertOnPlainObject | generate-image-list.js:88-93 | on a plain object the push throws exactly when the key is not owned and is an inherited name |
| InheritedKeys.ScanOnPlainObject | generate-image-list.js:69-97 | the walk as written, on a plain object `{}`; InheritedKeys.FailsExactly and InheritedKeys.SuccessAgrees give its meaning |
| InheritedKeys.VisitOnPlainObject | generate-image-list.js:72-95 | one entry of the walk as written; InheritedKeys.VisitFailsExactly and InheritedKeys.VisitSuccessAgrees give its meaning |
| InheritedKeys.ScanKeysGrow | generate-image-list.js:88-93 | the walk never drops a category |
| InheritedKeys.SuccessAgrees | generate-image-list.js:69-97 | when the walk on a plain object completes, it builds the same dictionary as the intended walk |
| InheritedKeys.FailsExactly | generate-image-list.js:88-93 | the walk on a plain object throws exactly when the intended walk would create a category whose key is an inherited name |
| InheritedKeys.ConstructorDirectoryThrows | generate-image-list.js:88-93 | a directory `constructor` holding one image under the root makes the run throw, while the intended walk files the image under `constructor` |

## Left out

- The filesystem calls (`existsSync`, `readdirSync`, `statSync`, `writeFileSync`) are replaced by the tree given as input and the dictionary returned. Read errors during the walk are not modelled. `statSync` follows symbolic links: a linked directory is an ordinary `Dir` of the tree, but a link cycle makes the tree infinite, the walk then runs until the system fails with ELOOP, and a finite `Entry` tree cannot represent that.
- JSON serialisation with two-space indentation (line 45), the order of keys in the written object, and the read-back check in `validateGeneratedJSON` (lines 165-177) are library behaviour and are left out.
- `createDefaultImages` (lines 133-162) only creates placeholder files, so it is left out.
- The console output (lines 28, 49-62, 64), `showUsageInstructions` and `main` are left out, as is the `--help` switch with `process.exit` (lines 221-234). Only `--repo` is modelled, because it is the one switch that changes the manifest.
- `async`/`await` is left out: the walk runs sequentially, and the model runs it as ordinary recursion.
- Paths.Join, Paths.Relative: these model Node's `path.join` and `path.relative` only for a plain entry name and a path that lies below the base. They do no normalisation of `.`, `..` or repeated separators.
- Paths.ExtName follows Node's rule for plain entry names. It ignores the drive-letter handling of the Windows variant, which cannot arise for entry names.
- Paths.ToLowerAscii lowers ASCII letters only. Two other characters lower to something holding an ASCII letter. The Kelvin sign U+212A lowers to `k`, and no allowed extension has a `k`. U+0130 (capital I with dot above) lowers to `i` followed by the combining dot U+0307; that dot stays in the extension, so no allowed extension can match. Every other character lowers to characters outside ASCII or is ASCII already. So which files are kept is unaffected.
- CodeUnitOrder.LessEq compares Dafny characters (Unicode scalar values). The default `sort` compares UTF-16 code units, and the two orders differ only between characters above U+FFFF and U+E000–U+FFFF.
- CodeUnitOrder.InsertionSort stands for the engine's own sort. Only its result is modelled, and by CodeUnitOrder.SortedUnique that result is unique.
- ImageManifest.FormatPaths goes through the categories in an arbitrary order, because a Dafny map has none. The order in which the source fills `formatted` does not change its contents.
- ImageManifest.FormatPathRoundTrip and ImageManifest.UrlsIdentifyFiles need a file path whose relative part uses only the host separator. On a POSIX host a backslash is an ordinary character in a name. There `a\b/x.png` and `a/b/x.png` get the same URL, and a directory named `a\b` gets the key of the nested directory `a/b`. The well-formedness predicate excludes such names.
- The question-and-answer variants of the script elsewhere in the repository are not part of this model.

## Findings

| source | as written | input that shows it | evidently intended | confidence | as-written member | corrected member |
|---|---|---|---|---|---|---|
| generate-image-list.js:88-93 | `result` is a plain object, so `result[categoryKey]` for a key it does not own is the inherited property of that name: a function, or for `__proto__` the prototype. It is truthy, so no list is created, and `push` then throws a TypeError that ends the run at lines 63-65 without writing anything | a directory `constructor` (or `toString`, `valueOf`, `__proto__`, ...) directly under `images/game` that holds `a.png` | a category for every directory that holds an image, whatever its name (a dictionary of own keys only, such as `Object.create(null)` or a `Map`) | high; not executed | InheritedKeys.ConstructorDirectoryThrows | ImageScan.ScanDirectory |
