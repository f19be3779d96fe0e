/**
  The directory walk of the image-list generator: which entries it keeps,
  the category key each kept file is filed under, and the dictionary of
  lists it fills.
*/
module ImageScan {
  import opened Wrappers
  import opened Paths

  /** The settings object, except the output file and the extension allow-list. */
  datatype Config = Config(
    baseDir: string,                 // the script's own directory
    sep: char,                       // the host path separator
    includeSubdirectories: bool,
    repositoryName: Option<string>)  // `null` is None

  /** The shipped settings: sub-directories are walked, no repository name. */
  function DefaultConfig(baseDir: string, sep: char): (cfg: Config)
    ensures cfg.baseDir == baseDir && cfg.sep == sep
    ensures cfg.includeSubdirectories && cfg.repositoryName.None?
  {
    Config(baseDir, sep, true, None)
  }

  /** The directory that is scanned: `images/game` under the script's directory. */
  function RootDir(cfg: Config): (root: string)
    ensures Within(cfg.baseDir, root, cfg.sep) && root != cfg.baseDir
  {
    Join(Join(cfg.baseDir, "images", cfg.sep), "game", cfg.sep)
  }

  const ImageExtensions: seq<string> := [".jpg", ".jpeg", ".png", ".gif", ".webp"]

  /** A regular file is kept when its lower-cased extension is on the allow-list. */
  predicate IsImage(name: string) {
    ToLowerAscii(ExtName(name)) in ImageExtensions
  }

  /** One entry of a directory listing; a directory holds its listing in enumeration order. */
  datatype Entry =
    | File(name: string)
    | Dir(name: string, children: seq<Entry>)
    | Other(name: string)   // neither a regular file nor a directory

  /** The key of the category a file directly inside `dir` is filed under. */
  function CategoryKey(cfg: Config, dir: string): (key: string)
    requires Within(RootDir(cfg), dir, cfg.sep)
    ensures '\\' !in key
    ensures dir == RootDir(cfg) ==> key == "."
  {
    var relativeDir := Relative(RootDir(cfg), dir, cfg.sep);
    if relativeDir == "" then "." else ToPosix(relativeDir)
  }

  /** The entry at `key` of a dictionary of lists, or the empty list when it is absent. */
  function Existing(m: map<string, seq<string>>, key: string): seq<string> {
    if key in m then m[key] else []
  }

  /** Appends `path` to the list at `key`, creating the list on first use. */
  function Insert(m: map<string, seq<string>>, key: string, path: string): (r: map<string, seq<string>>)
    ensures r.Keys == m.Keys + {key}
    ensures r[key] == Existing(m, key) + [path]
    ensures forall k :: k in m && k != key ==> r[k] == m[k]
  {
    m[key := Existing(m, key) + [path]]
  }

  /**
    What walking the listing `items` of directory `dir` does to the
    dictionary `acc`, entry by entry in enumeration order.
  */
  function Scan(cfg: Config, dir: string, items: seq<Entry>, acc: map<string, seq<string>>): map<string, seq<string>>
    requires Within(RootDir(cfg), dir, cfg.sep)
    decreases items
  {
    if items == [] then acc else Scan(cfg, dir, items[1..], Visit(cfg, dir, items[0], acc))
  }

  /** What one entry `item` of the listing of `dir` does to the dictionary `acc`. */
  function Visit(cfg: Config, dir: string, item: Entry, acc: map<string, seq<string>>): map<string, seq<string>>
    requires Within(RootDir(cfg), dir, cfg.sep)
    decreases item
  {
    var fullPath := Join(dir, item.name, cfg.sep);
    JoinWithin(RootDir(cfg), dir, item.name, cfg.sep);
    match item
    case Dir(_, children) =>
      if cfg.includeSubdirectories then Scan(cfg, fullPath, children, acc) else acc
    case File(name) =>
      if IsImage(name) then Insert(acc, CategoryKey(cfg, dir), fullPath) else acc
    case Other(_) => acc
  }

  /** The dictionary the walk fills: category key to the files found in that directory. */
  class ImageList {
    var categories: map<string, seq<string>>

    constructor ()
      ensures categories == map[]
    {
      categories := map[];
    }
  }

  /** Walks the listing `items` of `currentDir` depth first, filing every image into `result`. */
  method ScanDirectory(cfg: Config, currentDir: string, items: seq<Entry>, result: ImageList)
    requires Within(RootDir(cfg), currentDir, cfg.sep)
    modifies result
    ensures result.categories == Scan(cfg, currentDir, items, old(result.categories))
    decreases items
  {
    var i := 0;
    while i < |items|
      invariant 0 <= i <= |items|
      invariant Scan(cfg, currentDir, items[i..], result.categories)
                == Scan(cfg, currentDir, items, old(result.categories))
    {
      ScanStep(cfg, currentDir, items, i, result.categories);
      VisitEntry(cfg, currentDir, items[i], result);
      i := i + 1;
    }
    assert items[i..] == [];
  }

  /** Walking `items` from position `i` is visiting item `i`, then walking on from `i + 1`. */
  lemma ScanStep(cfg: Config, dir: string, items: seq<Entry>, i: nat, acc: map<string, seq<string>>)
    requires Within(RootDir(cfg), dir, cfg.sep) && i < |items|
    ensures Scan(cfg, dir, items[i..], acc) == Scan(cfg, dir, items[i + 1..], Visit(cfg, dir, items[i], acc))
  {
    assert items[i..][0] == items[i] && items[i..][1..] == items[i + 1..];
  }

  /** One turn of the walk's loop: recurse into a directory, file an image, skip the rest. */
  method VisitEntry(cfg: Config, currentDir: string, item: Entry, result: ImageList)
    requires Within(RootDir(cfg), currentDir, cfg.sep)
    modifies result
    ensures result.categories == Visit(cfg, currentDir, item, old(result.categories))
    decreases item
  {
    var fullPath := Join(currentDir, item.name, cfg.sep);
    JoinWithin(RootDir(cfg), currentDir, item.name, cfg.sep);
    match item {
      case Dir(_, children) =>
        if cfg.includeSubdirectories {
          ScanDirectory(cfg, fullPath, children, result);
        }
      case File(name) =>
        if IsImage(name) {
          AddImage(result, CategoryKey(cfg, currentDir), fullPath);
        }
      case Other(_) =>
    }
  }

  /** Files `path` under `key`, creating the category's list on its first image. */
  method AddImage(result: ImageList, key: string, path: string)
    modifies result
    ensures result.categories == Insert(old(result.categories), key, path)
  {
    if key !in result.categories {
      result.categories := result.categories[key := []];
    }
    result.categories := result.categories[key := result.categories[key] + [path]];
  }
}
