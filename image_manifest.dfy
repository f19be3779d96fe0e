/**
  The second half of the generator: turning the file paths the walk
  collected into site-absolute URLs, sorting each category, and the
  top-level run that refuses to scan a missing root.
*/
module ImageManifest {
  import opened Wrappers
  import opened Paths
  import opened CodeUnitOrder
  import opened ImageScan
  import opened ScanProperties

  /** `null`, `undefined` and the empty string all count as no repository name. */
  predicate HasRepositoryName(cfg: Config) {
    cfg.repositoryName.Some? && cfg.repositoryName.value != ""
  }

  /** What every URL starts with: `/`, or `/<repository>/` on a project site. */
  function UrlPrefix(cfg: Config): (prefix: string)
    ensures |prefix| >= 1 && prefix[0] == '/' && prefix[|prefix| - 1] == '/'
    ensures |prefix| == 1 <==> !HasRepositoryName(cfg)
  {
    if HasRepositoryName(cfg) then "/" + cfg.repositoryName.value + "/" else "/"
  }

  /** The URL a file is served at: its path from the script's directory, with `/` separators. */
  function FormatPath(cfg: Config, filePath: string): (url: string)
    requires Within(cfg.baseDir, filePath, cfg.sep)
    ensures UrlPrefix(cfg) <= url
    ensures url[|UrlPrefix(cfg)|..] == ToPosix(Relative(cfg.baseDir, filePath, cfg.sep))
    ensures '\\' in url ==> HasRepositoryName(cfg) && '\\' in cfg.repositoryName.value
  {
    var relativePath := ToPosix(Relative(cfg.baseDir, filePath, cfg.sep));
    UrlPrefix(cfg) + relativePath
  }

  /** The two shapes of a URL: `/<repository>/<relative>` on a project site, `/<relative>` otherwise. */
  lemma UrlForm(cfg: Config, filePath: string)
    requires Within(cfg.baseDir, filePath, cfg.sep)
    ensures var relative := ToPosix(Relative(cfg.baseDir, filePath, cfg.sep));
      && (HasRepositoryName(cfg) ==> FormatPath(cfg, filePath) == "/" + cfg.repositoryName.value + "/" + relative)
      && (!HasRepositoryName(cfg) ==> FormatPath(cfg, filePath) == "/" + relative)
  {
    var url := FormatPath(cfg, filePath);
    assert url == url[..|UrlPrefix(cfg)|] + url[|UrlPrefix(cfg)|..];
  }

  /** The file a URL names, when it starts with the site's prefix. */
  function UrlToFilePath(cfg: Config, url: string): (p: Option<string>)
    ensures p.Some? ==> Within(cfg.baseDir, p.value, cfg.sep)
    ensures p.Some? <==> UrlPrefix(cfg) <= url
  {
    var prefix := UrlPrefix(cfg);
    if prefix <= url then
      var rest := url[|prefix|..];
      if rest == "" then Some(cfg.baseDir) else Some(cfg.baseDir + [cfg.sep] + FromPosix(rest, cfg.sep))
    else None
  }

  /**
    A URL leads back to the file it was made from, provided the host's own
    separator is the only one in the file's relative path (and the path is
    not the script's directory with a trailing separator, which names the
    same directory).
  */
  lemma FormatPathRoundTrip(cfg: Config, filePath: string)
    requires Within(cfg.baseDir, filePath, cfg.sep) && filePath != cfg.baseDir + [cfg.sep]
    requires OnlySeparator(Relative(cfg.baseDir, filePath, cfg.sep), cfg.sep)
    ensures UrlToFilePath(cfg, FormatPath(cfg, filePath)) == Some(filePath)
  {
    var rel := Relative(cfg.baseDir, filePath, cfg.sep);
    FromPosixToPosix(rel, cfg.sep);
    var url := FormatPath(cfg, filePath);
    var prefix := UrlPrefix(cfg);
    assert prefix <= url && url[|prefix|..] == ToPosix(rel);
    if rel != "" {
      assert ToPosix(rel) != "";
      assert filePath == cfg.baseDir + [cfg.sep] + rel;
    }
  }

  /** Distinct files get distinct URLs. */
  lemma FormatPathInjective(cfg: Config, p: string, q: string)
    requires Within(cfg.baseDir, p, cfg.sep) && p != cfg.baseDir + [cfg.sep]
    requires OnlySeparator(Relative(cfg.baseDir, p, cfg.sep), cfg.sep)
    requires Within(cfg.baseDir, q, cfg.sep) && q != cfg.baseDir + [cfg.sep]
    requires OnlySeparator(Relative(cfg.baseDir, q, cfg.sep), cfg.sep)
    requires FormatPath(cfg, p) == FormatPath(cfg, q)
    ensures p == q
  {
    FormatPathRoundTrip(cfg, p);
    FormatPathRoundTrip(cfg, q);
  }

  predicate AllWithinBase(cfg: Config, files: seq<string>) {
    forall i :: 0 <= i < |files| ==> Within(cfg.baseDir, files[i], cfg.sep)
  }

  /** The `files.map(...)` step: every path of a category turned into its URL, in order. */
  function FormatAll(cfg: Config, files: seq<string>): (urls: seq<string>)
    requires AllWithinBase(cfg, files)
    ensures |urls| == |files|
    ensures forall i :: 0 <= i < |files| ==> urls[i] == FormatPath(cfg, files[i])
  {
    if files == [] then []
    else
      var rest := FormatAll(cfg, files[1..]);
      assert forall i :: 1 <= i < |files| ==> rest[i - 1] == FormatPath(cfg, files[i]);
      [FormatPath(cfg, files[0])] + rest
  }

  /** Every path of every category lies under the script's directory. */
  predicate PathsWithinBase(cfg: Config, raw: map<string, seq<string>>) {
    forall k :: k in raw ==> AllWithinBase(cfg, raw[k])
  }

  /**
    `formatted` is a formatting of `raw`: the same categories, and in each
    the URLs of that category's files, sorted.
  */
  predicate IsFormattingOf(cfg: Config, raw: map<string, seq<string>>, formatted: map<string, seq<string>>)
    requires PathsWithinBase(cfg, raw)
  {
    formatted.Keys == raw.Keys
    && forall k :: k in raw ==>
         Sorted(formatted[k]) && multiset(formatted[k]) == multiset(FormatAll(cfg, raw[k]))
  }

  /** Builds a fresh dictionary whose lists are the URLs of each category, sorted in place. */
  method FormatPaths(cfg: Config, rawList: map<string, seq<string>>) returns (formatted: map<string, seq<string>>)
    requires PathsWithinBase(cfg, rawList)
    ensures IsFormattingOf(cfg, rawList, formatted)
  {
    formatted := map[];
    var pending := rawList.Keys;
    while pending != {}
      invariant pending <= rawList.Keys
      invariant formatted.Keys == rawList.Keys - pending
      invariant forall k :: k in formatted ==>
                  Sorted(formatted[k]) && multiset(formatted[k]) == multiset(FormatAll(cfg, rawList[k]))
      decreases pending
    {
      var category :| category in pending;
      var sorted := SortedUrls(cfg, rawList[category]);
      formatted := formatted[category := sorted];
      pending := pending - {category};
    }
  }

  /** `files.map(...).sort()` for one category: its URLs, in order. */
  method SortedUrls(cfg: Config, files: seq<string>) returns (sorted: seq<string>)
    requires AllWithinBase(cfg, files)
    ensures Sorted(sorted) && multiset(sorted) == multiset(FormatAll(cfg, files))
  {
    var urls := FormatAll(cfg, files);
    var a := new string[|urls|];
    forall i | 0 <= i < a.Length {
      a[i] := urls[i];
    }
    assert a[..] == urls;
    InsertionSort(a);
    sorted := a[..];
  }

  /** The formatting of a dictionary is unique: whatever sort is used, the result is the same. */
  lemma FormattingUnique(cfg: Config, raw: map<string, seq<string>>, f: map<string, seq<string>>, g: map<string, seq<string>>)
    requires PathsWithinBase(cfg, raw)
    requires IsFormattingOf(cfg, raw, f) && IsFormattingOf(cfg, raw, g)
    ensures f == g
  {
    forall k | k in raw ensures f[k] == g[k] {
      SortedUnique(f[k], g[k]);
    }
  }

  lemma MultisetWithout(s: seq<string>, j: int)
    requires 0 <= j < |s|
    ensures multiset(s[..j] + s[j + 1..]) == multiset(s) - multiset{s[j]}
  {
    assert s == s[..j] + [s[j]] + s[j + 1..];
  }

  lemma AllWithinWithout(cfg: Config, b: seq<string>, j: int)
    requires AllWithinBase(cfg, b) && 0 <= j < |b|
    ensures AllWithinBase(cfg, b[..j] + b[j + 1..])
  {
    var rest := b[..j] + b[j + 1..];
    forall i | 0 <= i < |rest| ensures rest[i] == b[if i < j then i else i + 1] { }
  }

  /** Mapping a list with one element dropped drops that element's URL. */
  lemma FormatAllWithout(cfg: Config, b: seq<string>, j: int)
    requires AllWithinBase(cfg, b) && 0 <= j < |b|
    ensures AllWithinBase(cfg, b[..j] + b[j + 1..])
    ensures FormatAll(cfg, b[..j] + b[j + 1..]) == FormatAll(cfg, b)[..j] + FormatAll(cfg, b)[j + 1..]
    ensures FormatAll(cfg, b)[j] == FormatPath(cfg, b[j])
  {
    AllWithinWithout(cfg, b, j);
    var rest := b[..j] + b[j + 1..];
    forall i | 0 <= i < |rest| ensures rest[i] == b[if i < j then i else i + 1] { }
  }

  /** Mapping a list gives the same multiset of URLs as mapping any permutation of it. */
  lemma {:induction false} FormatAllPermutation(cfg: Config, a: seq<string>, b: seq<string>)
    requires AllWithinBase(cfg, a) && AllWithinBase(cfg, b) && multiset(a) == multiset(b)
    ensures multiset(FormatAll(cfg, a)) == multiset(FormatAll(cfg, b))
    decreases |a|
  {
    if a == [] {
      assert |b| == |multiset(b)| == 0;
    } else {
      assert a[0] in multiset(b);
      var j :| 0 <= j < |b| && b[j] == a[0];
      PermutationTail(cfg, a, b, j);
      FormatAllPermutation(cfg, a[1..], b[..j] + b[j + 1..]);
      PermutationJoin(cfg, a, b, j);
    }
  }

  /** Dropping the head of `a` and the same element of `b` leaves two permutations. */
  lemma PermutationTail(cfg: Config, a: seq<string>, b: seq<string>, j: int)
    requires AllWithinBase(cfg, a) && AllWithinBase(cfg, b) && multiset(a) == multiset(b)
    requires a != [] && 0 <= j < |b| && b[j] == a[0]
    ensures AllWithinBase(cfg, a[1..]) && AllWithinBase(cfg, b[..j] + b[j + 1..])
    ensures multiset(a[1..]) == multiset(b[..j] + b[j + 1..])
  {
    assert multiset(b[..j] + b[j + 1..]) == multiset(b) - multiset{b[j]} by { MultisetWithout(b, j); }
    assert multiset(a[1..]) == multiset(a) - multiset{a[0]} by { MultisetOfTail(a); }
    assert AllWithinBase(cfg, b[..j] + b[j + 1..]) by { AllWithinWithout(cfg, b, j); }
    assert AllWithinBase(cfg, a[1..]) by {
      forall i | 0 <= i < |a[1..]| ensures a[1..][i] == a[i + 1] { }
    }
  }

  /** Putting the head's URL back on both sides. */
  lemma PermutationJoin(cfg: Config, a: seq<string>, b: seq<string>, j: int)
    requires AllWithinBase(cfg, a) && AllWithinBase(cfg, b)
    requires a != [] && 0 <= j < |b| && b[j] == a[0]
    requires AllWithinBase(cfg, a[1..]) && AllWithinBase(cfg, b[..j] + b[j + 1..])
    requires multiset(FormatAll(cfg, a[1..])) == multiset(FormatAll(cfg, b[..j] + b[j + 1..]))
    ensures multiset(FormatAll(cfg, a)) == multiset(FormatAll(cfg, b))
  {
    var rest := b[..j] + b[j + 1..];
    var fb := FormatAll(cfg, b);
    var x := FormatPath(cfg, a[0]);
    assert multiset(FormatAll(cfg, a)) == multiset{x} + multiset(FormatAll(cfg, a[1..])) by {
      assert FormatAll(cfg, a) == [x] + FormatAll(cfg, a[1..]);
    }
    assert multiset(FormatAll(cfg, rest)) == multiset(fb) - multiset{x} && x in multiset(fb) by {
      FormatAllWithout(cfg, b, j);
      MultisetWithout(fb, j);
    }
    PutBack(multiset(FormatAll(cfg, a)), multiset(FormatAll(cfg, a[1..])), multiset(fb), x);
  }

  lemma PutBack(m: multiset<string>, rest: multiset<string>, n: multiset<string>, x: string)
    requires m == multiset{x} + rest && rest == n - multiset{x} && x in n
    ensures m == n
  {
  }

  /**
    The written lists do not depend on the order the files were found in:
    two dictionaries whose categories hold the same files in any order
    format to the same dictionary.
  */
  lemma FormattingIgnoresOrder(cfg: Config, raw: map<string, seq<string>>, raw': map<string, seq<string>>,
                               f: map<string, seq<string>>, f': map<string, seq<string>>)
    requires PathsWithinBase(cfg, raw) && PathsWithinBase(cfg, raw')
    requires raw.Keys == raw'.Keys && forall k :: k in raw ==> multiset(raw[k]) == multiset(raw'[k])
    requires IsFormattingOf(cfg, raw, f) && IsFormattingOf(cfg, raw', f')
    ensures f == f'
  {
    forall k | k in raw ensures f[k] == f'[k] {
      FormatAllPermutation(cfg, raw[k], raw'[k]);
      SortedUnique(f[k], f'[k]);
    }
  }

  /**
    A formatted category holds exactly the URLs of its files, as many as
    there were files, each starting with the site's prefix.
  */
  lemma FormattedContents(cfg: Config, raw: map<string, seq<string>>, formatted: map<string, seq<string>>, k: string, u: string)
    requires PathsWithinBase(cfg, raw) && IsFormattingOf(cfg, raw, formatted) && k in raw
    ensures |formatted[k]| == |raw[k]|
    ensures u in formatted[k] <==> exists i :: 0 <= i < |raw[k]| && FormatPath(cfg, raw[k][i]) == u
    ensures u in formatted[k] ==> UrlPrefix(cfg) <= u
  {
    var urls := FormatAll(cfg, raw[k]);
    assert |formatted[k]| == |multiset(formatted[k])| == |multiset(urls)| == |urls|;
    assert u in formatted[k] <==> u in multiset(formatted[k]);
    assert u in urls <==> u in multiset(urls);
    if u in urls {
      var i :| 0 <= i < |urls| && urls[i] == u;
      assert FormatPath(cfg, raw[k][i]) == u;
    }
    if exists i :: 0 <= i < |raw[k]| && FormatPath(cfg, raw[k][i]) == u {
      var i :| 0 <= i < |raw[k]| && FormatPath(cfg, raw[k][i]) == u;
      assert urls[i] == u;
    }
  }

  // ---------------------------------------------------------------------
  // The whole run

  /** Why a run produces no list. */
  datatype GenerateError = RootMissing(dir: string)

  /** Every path a walk from the root records lies under the script's directory. */
  lemma ScannedPathsWithinBase(cfg: Config, items: seq<Entry>)
    ensures PathsWithinBase(cfg, Scan(cfg, RootDir(cfg), items, map[]))
  {
    var m := Scan(cfg, RootDir(cfg), items, map[]);
    forall k, i | k in m && 0 <= i < |m[k]| ensures Within(cfg.baseDir, m[k][i], cfg.sep) {
      ManifestPaths(cfg, items, k, m[k][i]);
      var f :| f in RootFiles(cfg, items) && IsImage(f.name)
               && CategoryKey(cfg, f.dir) == k && Join(f.dir, f.name, cfg.sep) == m[k][i];
      WithinTransitive(cfg.baseDir, RootDir(cfg), f.dir, cfg.sep);
      JoinWithin(cfg.baseDir, f.dir, f.name, cfg.sep);
    }
  }

  /** The list the run writes for the tree `items` under the root. */
  predicate Manifest(cfg: Config, items: seq<Entry>, formatted: map<string, seq<string>>) {
    ScannedPathsWithinBase(cfg, items);
    IsFormattingOf(cfg, Scan(cfg, RootDir(cfg), items, map[]), formatted)
  }

  /**
    One run: `rootListing` is the listing of the root directory, or None
    when that directory does not exist; then the run fails before it scans
    or writes anything.
  */
  method GenerateImageList(cfg: Config, rootListing: Option<seq<Entry>>)
    returns (r: Result<map<string, seq<string>>, GenerateError>)
    ensures rootListing.None? ==> r == Failure(RootMissing(RootDir(cfg)))
    ensures rootListing.Some? ==> r.Success? && Manifest(cfg, rootListing.value, r.value)
  {
    if rootListing.None? {
      return Failure(RootMissing(RootDir(cfg)));
    }
    var imageList := new ImageList();
    ScanDirectory(cfg, RootDir(cfg), rootListing.value, imageList);
    ScannedPathsWithinBase(cfg, rootListing.value);
    var formattedList := FormatPaths(cfg, imageList.categories);
    return Success(formattedList);
  }

  /**
    The written list, end to end: a URL is listed under a key exactly when
    it is the URL of an image reached from the root whose directory has
    that key.
  */
  lemma ManifestUrls(cfg: Config, items: seq<Entry>, formatted: map<string, seq<string>>, key: string, u: string)
    requires Manifest(cfg, items, formatted)
    ensures (key in formatted && u in formatted[key])
      <==> exists f :: f in RootFiles(cfg, items) && IsImage(f.name) && CategoryKey(cfg, f.dir) == key
                       && Within(cfg.baseDir, Join(f.dir, f.name, cfg.sep), cfg.sep)
                       && FormatPath(cfg, Join(f.dir, f.name, cfg.sep)) == u
  {
    if key in formatted && u in formatted[key] {
      ManifestUrlListed(cfg, items, formatted, key, u);
    }
    if exists f :: f in RootFiles(cfg, items) && IsImage(f.name) && CategoryKey(cfg, f.dir) == key
                   && Within(cfg.baseDir, Join(f.dir, f.name, cfg.sep), cfg.sep)
                   && FormatPath(cfg, Join(f.dir, f.name, cfg.sep)) == u {
      var f :| f in RootFiles(cfg, items) && IsImage(f.name) && CategoryKey(cfg, f.dir) == key
               && Within(cfg.baseDir, Join(f.dir, f.name, cfg.sep), cfg.sep)
               && FormatPath(cfg, Join(f.dir, f.name, cfg.sep)) == u;
      ManifestUrlReached(cfg, items, formatted, f);
    }
  }

  /** Every URL in the manifest is that of an image reached from the root, under its directory's key. */
  lemma ManifestUrlListed(cfg: Config, items: seq<Entry>, formatted: map<string, seq<string>>, key: string, u: string)
    requires Manifest(cfg, items, formatted) && key in formatted && u in formatted[key]
    ensures exists f :: f in RootFiles(cfg, items) && IsImage(f.name) && CategoryKey(cfg, f.dir) == key
                        && Within(cfg.baseDir, Join(f.dir, f.name, cfg.sep), cfg.sep)
                        && FormatPath(cfg, Join(f.dir, f.name, cfg.sep)) == u
  {
    var m := Scan(cfg, RootDir(cfg), items, map[]);
    ScannedPathsWithinBase(cfg, items);
    FormattedContents(cfg, m, formatted, key, u);
    var i :| 0 <= i < |m[key]| && FormatPath(cfg, m[key][i]) == u;
    ManifestPaths(cfg, items, key, m[key][i]);
  }

  /** Every image reached from the root has its URL in the manifest, under its directory's key. */
  lemma ManifestUrlReached(cfg: Config, items: seq<Entry>, formatted: map<string, seq<string>>, f: FileRef)
    requires Manifest(cfg, items, formatted)
    requires f in RootFiles(cfg, items) && IsImage(f.name)
    requires Within(cfg.baseDir, Join(f.dir, f.name, cfg.sep), cfg.sep)
    ensures var key := CategoryKey(cfg, f.dir);
      key in formatted && FormatPath(cfg, Join(f.dir, f.name, cfg.sep)) in formatted[key]
  {
    var m := Scan(cfg, RootDir(cfg), items, map[]);
    ScannedPathsWithinBase(cfg, items);
    var key := CategoryKey(cfg, f.dir);
    var p := Join(f.dir, f.name, cfg.sep);
    ManifestPaths(cfg, items, key, p);
    var i :| 0 <= i < |m[key]| && m[key][i] == p;
    FormattedContents(cfg, m, formatted, key, FormatPath(cfg, p));
  }

  /** With the shipped settings the manifest lists every allow-listed file of the tree exactly once. */
  lemma DefaultManifestSize(baseDir: string, sep: char, items: seq<Entry>, formatted: map<string, seq<string>>)
    requires Manifest(DefaultConfig(baseDir, sep), items, formatted)
    ensures TotalEntries(formatted) == CountImages(items)
  {
    var cfg := DefaultConfig(baseDir, sep);
    var m := Scan(cfg, RootDir(cfg), items, map[]);
    ScannedPathsWithinBase(cfg, items);
    forall k | k in m ensures |formatted[k]| == |m[k]| {
      FormattedContents(cfg, m, formatted, k, "");
    }
    TotalEntriesSameLengths(formatted, m);
    ManifestSize(cfg, items);
  }

  /** With the shipped settings every URL of the manifest starts with `/images/game/`. */
  lemma DefaultManifestUrls(baseDir: string, sep: char, items: seq<Entry>, formatted: map<string, seq<string>>)
    requires sep == '/' || sep == '\\'
    requires Manifest(DefaultConfig(baseDir, sep), items, formatted)
    ensures forall key, u :: key in formatted && u in formatted[key] ==> "/images/game/" <= u
  {
    var cfg := DefaultConfig(baseDir, sep);
    forall key, u | key in formatted && u in formatted[key] ensures "/images/game/" <= u {
      ManifestUrlListed(cfg, items, formatted, key, u);
      var f :| f in RootFiles(cfg, items) && IsImage(f.name) && CategoryKey(cfg, f.dir) == key
               && Within(cfg.baseDir, Join(f.dir, f.name, cfg.sep), cfg.sep)
               && FormatPath(cfg, Join(f.dir, f.name, cfg.sep)) == u;
      DefaultUrlPrefix(baseDir, sep, f);
    }
  }

  /** The URL of a file at or below `images/game`, with no repository name. */
  lemma DefaultUrlPrefix(baseDir: string, sep: char, f: FileRef)
    requires sep == '/' || sep == '\\'
    requires Within(RootDir(DefaultConfig(baseDir, sep)), f.dir, sep)
    ensures Within(baseDir, Join(f.dir, f.name, sep), sep)
    ensures "/images/game/" <= FormatPath(DefaultConfig(baseDir, sep), Join(f.dir, f.name, sep))
  {
    var cfg := DefaultConfig(baseDir, sep);
    var root := RootDir(cfg);
    var below := f.dir[|root|..];
    var p := Join(f.dir, f.name, sep);
    var t := "images" + [sep] + "game" + below + [sep] + f.name;
    assert Within(baseDir, p, sep) && Relative(baseDir, p, sep) == t by {
      assert f.dir == root + below;
      assert root == Join(Join(baseDir, "images", sep), "game", sep);
      RecordedShape(baseDir, below, f.name, sep);
    }
    assert below == [] || below[0] == sep;
    PosixHead(sep, below, f.name);
    assert UrlPrefix(cfg) == "/";
    SlashThenHead(FormatPath(cfg, p), ToPosix(t));
  }

  /** A string made of `/` and a string that starts with `images/game/` starts with `/images/game/`. */
  lemma SlashThenHead(s: string, r: string)
    requires "/" <= s && s[1..] == r && "images/game/" <= r
    ensures "/images/game/" <= s
  {
    assert s == "/" + r;
    assert "/images/game/" == "/" + "images/game/";
  }

  /** The posix form of a relative path that starts with `images`, `game` and a separator. */
  lemma PosixHead(sep: char, below: string, name: string)
    requires sep == '/' || sep == '\\'
    requires below == [] || below[0] == sep
    ensures "images/game/" <= ToPosix("images" + [sep] + "game" + below + [sep] + name)
  {
    var t := "images" + [sep] + "game" + below + [sep] + name;
    var h := "images" + [sep] + "game" + [sep];
    assert t[..12] == h;
    ToPosixPrefix(t, 12);
    assert ToPosix(h) == "images/game/" by {
      forall i | 0 <= i < 12 ensures ToPosix(h)[i] == "images/game/"[i] {
        assert ToPosix(h)[i] == SlashChar(h[i]);
      }
    }
  }

  /** Rewriting separators and taking a prefix commute. */
  lemma ToPosixPrefix(s: string, n: nat)
    requires n <= |s|
    ensures ToPosix(s)[..n] == ToPosix(s[..n])
  {
    forall i | 0 <= i < n ensures ToPosix(s)[..n][i] == ToPosix(s[..n])[i] {
      assert ToPosix(s)[i] == SlashChar(s[i]);
    }
  }

  /**
    The path of a file reached in a well-formed tree lies under the script's
    directory, and its relative path uses the host separator only.
  */
  lemma RecordedPathRelative(cfg: Config, f: FileRef)
    requires BelowByNames(RootDir(cfg), f.dir, cfg.sep) && WellFormedName(f.name)
    ensures var p := Join(f.dir, f.name, cfg.sep);
      Within(cfg.baseDir, p, cfg.sep) && p != cfg.baseDir + [cfg.sep]
      && OnlySeparator(Relative(cfg.baseDir, p, cfg.sep), cfg.sep)
  {
    var sep := cfg.sep;
    var below := BelowSuffix(RootDir(cfg), f.dir, sep);
    NameOnlySeparator(f.name, sep);
    RecordedShape(cfg.baseDir, below, f.name, sep);
    RecordedTailOnlySeparator(below, f.name, sep);
  }

  /** A directory below another by entry names is that directory and a suffix using only the host separator. */
  lemma BelowSuffix(dir: string, x: string, sep: char) returns (below: string)
    requires BelowByNames(dir, x, sep)
    ensures x == dir + below && OnlySeparator(below, sep)
  {
    if x == dir {
      below := "";
      assert x == dir + below;
    } else {
      below := [sep] + x[|dir| + 1..];
      assert x == dir + below;
      assert OnlySeparator([sep], sep);
      OnlySeparatorConcat([sep], x[|dir| + 1..], sep);
    }
  }

  lemma NameOnlySeparator(name: string, sep: char)
    requires WellFormedName(name)
    ensures OnlySeparator(name, sep)
  {
    forall i | 0 <= i < |name| ensures name[i] != '/' && name[i] != '\\' {
      assert name[i] in name;
    }
  }

  /** A file of `images/game` or below, as a path under the script's directory. */
  lemma RecordedShape(base: string, below: string, name: string, sep: char)
    ensures var p := Join(Join(Join(base, "images", sep), "game", sep) + below, name, sep);
      var t := "images" + [sep] + "game" + below + [sep] + name;
      && p == base + [sep] + t
      && Within(base, p, sep) && Relative(base, p, sep) == t && p != base + [sep]
  {
    var t := "images" + [sep] + "game" + below + [sep] + name;
    assert Join(Join(Join(base, "images", sep), "game", sep) + below, name, sep) == base + [sep] + t;
  }

  /** The part of a recorded path after the script's directory uses only the host separator. */
  lemma RecordedTailOnlySeparator(below: string, name: string, sep: char)
    requires OnlySeparator(below, sep) && OnlySeparator(name, sep)
    ensures OnlySeparator("images" + [sep] + "game" + below + [sep] + name, sep)
  {
    var head := "images" + [sep] + "game";
    assert OnlySeparator(head, sep) by {
      assert OnlySeparator("images", sep) && OnlySeparator("game", sep) && OnlySeparator([sep], sep);
      OnlySeparatorConcat("images", [sep], sep);
      OnlySeparatorConcat("images" + [sep], "game", sep);
    }
    assert OnlySeparator([sep], sep);
    OnlySeparatorConcat(head, below, sep);
    OnlySeparatorConcat(head + below, [sep], sep);
    OnlySeparatorConcat(head + below + [sep], name, sep);
  }

  /** In a well-formed tree no two files reached from the root share a URL. */
  lemma UrlsIdentifyFiles(cfg: Config, items: seq<Entry>, f: FileRef, g: FileRef)
    requires WellFormedTree(items) && f in RootFiles(cfg, items) && g in RootFiles(cfg, items)
    ensures var p, q := Join(f.dir, f.name, cfg.sep), Join(g.dir, g.name, cfg.sep);
      && Within(cfg.baseDir, p, cfg.sep) && Within(cfg.baseDir, q, cfg.sep)
      && (FormatPath(cfg, p) == FormatPath(cfg, q) ==> p == q)
  {
    FilesBelowByNames(RootDir(cfg), items, cfg.sep, cfg.includeSubdirectories);
    RecordedPathRelative(cfg, f);
    RecordedPathRelative(cfg, g);
    var p, q := Join(f.dir, f.name, cfg.sep), Join(g.dir, g.name, cfg.sep);
    if FormatPath(cfg, p) == FormatPath(cfg, q) {
      FormatPathInjective(cfg, p, q);
    }
  }
}
