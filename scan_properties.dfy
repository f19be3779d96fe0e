/**
  What the walk of ImageScan computes, stated against an independent
  description of the tree: the list of regular files the walk reaches, the
  images among them, and the category each image belongs to.
*/
module ScanProperties {
  import opened Wrappers
  import opened Paths
  import opened ImageScan

  /** A regular file found in the listing of directory `dir`. */
  datatype FileRef = FileRef(dir: string, name: string)

  /** A category key and a path filed under it. */
  datatype Pair = Pair(key: string, path: string)

  lemma WithinAll(dir: string, sub: string, fs: seq<FileRef>, sep: char)
    requires Within(dir, sub, sep)
    requires forall f :: f in fs ==> Within(sub, f.dir, sep)
    ensures forall f :: f in fs ==> Within(dir, f.dir, sep)
  {
    forall f | f in fs ensures Within(dir, f.dir, sep) { WithinTransitive(dir, sub, f.dir, sep); }
  }

  /**
    Every regular file in the tree `items` listed by `dir`, in depth-first
    enumeration order; sub-directories are entered only when `recurse`.
  */
  function Files(dir: string, items: seq<Entry>, sep: char, recurse: bool): (fs: seq<FileRef>)
    ensures forall f :: f in fs ==> Within(dir, f.dir, sep)
    ensures !recurse ==> forall f :: f in fs ==> f.dir == dir && File(f.name) in items
    ensures !recurse ==> forall n :: File(n) in items ==> FileRef(dir, n) in fs
    decreases items
  {
    if items == [] then []
    else
      var head := (match items[0]
        case File(n) => [FileRef(dir, n)]
        case Dir(n, children) =>
          if recurse then
            var sub := Join(dir, n, sep);
            var below := Files(sub, children, sep, recurse);
            JoinWithin(dir, dir, n, sep);
            WithinAll(dir, sub, below, sep);
            below
          else []
        case Other(_) => []);
      head + Files(dir, items[1..], sep, recurse)
  }

  /** The regular files a walk from the root reaches under `cfg`. */
  function RootFiles(cfg: Config, items: seq<Entry>): (fs: seq<FileRef>)
    ensures forall f :: f in fs ==> Within(RootDir(cfg), f.dir, cfg.sep)
  {
    Files(RootDir(cfg), items, cfg.sep, cfg.includeSubdirectories)
  }

  predicate AllWithinRoot(cfg: Config, fs: seq<FileRef>) {
    forall f :: f in fs ==> Within(RootDir(cfg), f.dir, cfg.sep)
  }

  /** The category and path a file is recorded with. */
  function PairOf(cfg: Config, f: FileRef): Pair
    requires Within(RootDir(cfg), f.dir, cfg.sep)
  {
    Pair(CategoryKey(cfg, f.dir), Join(f.dir, f.name, cfg.sep))
  }

  /** The files of `fs` whose name satisfies `keep`, each with its category, in order. */
  function Select(cfg: Config, fs: seq<FileRef>, keep: string -> bool): (ps: seq<Pair>)
    requires AllWithinRoot(cfg, fs)
    ensures |ps| <= |fs|
  {
    if fs == [] then []
    else (if keep(fs[0].name) then [PairOf(cfg, fs[0])] else []) + Select(cfg, fs[1..], keep)
  }

  /** The images among `fs`, each with its category, in order. */
  function Collect(cfg: Config, fs: seq<FileRef>): seq<Pair>
    requires AllWithinRoot(cfg, fs)
  {
    Select(cfg, fs, IsImage)
  }

  /** The images the walk of the listing `items` of `dir` must record. */
  function Collected(cfg: Config, dir: string, items: seq<Entry>): seq<Pair>
    requires Within(RootDir(cfg), dir, cfg.sep)
  {
    var fs := Files(dir, items, cfg.sep, cfg.includeSubdirectories);
    WithinAll(RootDir(cfg), dir, fs, cfg.sep);
    Collect(cfg, fs)
  }

  /** Records every pair of `ps`, in order. */
  function InsertAll(m: map<string, seq<string>>, ps: seq<Pair>): map<string, seq<string>>
    decreases ps
  {
    if ps == [] then m else InsertAll(Insert(m, ps[0].key, ps[0].path), ps[1..])
  }

  /** The paths of `ps` filed under `key`, in order. */
  function PathsFor(ps: seq<Pair>, key: string): (paths: seq<string>)
    ensures |paths| <= |ps|
  {
    if ps == [] then []
    else (if ps[0].key == key then [ps[0].path] else []) + PathsFor(ps[1..], key)
  }

  lemma {:induction false} SelectAppend(cfg: Config, a: seq<FileRef>, b: seq<FileRef>, keep: string -> bool)
    requires AllWithinRoot(cfg, a) && AllWithinRoot(cfg, b)
    ensures Select(cfg, a + b, keep) == Select(cfg, a, keep) + Select(cfg, b, keep)
  {
    if a == [] {
      assert a + b == b;
    } else {
      var ab := a + b;
      assert ab[0] == a[0] && ab[1..] == a[1..] + b;
      assert AllWithinRoot(cfg, a[1..]) by {
        forall f | f in a[1..] ensures f in a { }
      }
      SelectAppend(cfg, a[1..], b, keep);
    }
  }

  lemma CollectAppend(cfg: Config, a: seq<FileRef>, b: seq<FileRef>)
    requires AllWithinRoot(cfg, a) && AllWithinRoot(cfg, b)
    ensures Collect(cfg, a + b) == Collect(cfg, a) + Collect(cfg, b)
  {
    SelectAppend(cfg, a, b, IsImage);
  }

  lemma {:induction false} InsertAllAppend(m: map<string, seq<string>>, xs: seq<Pair>, ys: seq<Pair>)
    ensures InsertAll(m, xs + ys) == InsertAll(InsertAll(m, xs), ys)
    decreases xs
  {
    if xs == [] {
      assert xs + ys == ys;
    } else {
      assert (xs + ys)[0] == xs[0] && (xs + ys)[1..] == xs[1..] + ys;
      InsertAllAppend(Insert(m, xs[0].key, xs[0].path), xs[1..], ys);
    }
  }

  lemma FilesCons(dir: string, items: seq<Entry>, sep: char, recurse: bool)
    requires items != []
    ensures Files(dir, items, sep, recurse) == Files(dir, [items[0]], sep, recurse) + Files(dir, items[1..], sep, recurse)
  {
    assert [items[0]][1..] == [];
  }

  lemma CollectedCons(cfg: Config, dir: string, items: seq<Entry>)
    requires Within(RootDir(cfg), dir, cfg.sep) && items != []
    ensures Collected(cfg, dir, items) == Collected(cfg, dir, [items[0]]) + Collected(cfg, dir, items[1..])
  {
    var sep, recurse := cfg.sep, cfg.includeSubdirectories;
    FilesCons(dir, items, sep, recurse);
    var head, rest := Files(dir, [items[0]], sep, recurse), Files(dir, items[1..], sep, recurse);
    WithinAll(RootDir(cfg), dir, head, sep);
    WithinAll(RootDir(cfg), dir, rest, sep);
    CollectAppend(cfg, head, rest);
  }

  /**
    The walk records exactly the images of the tree, in depth-first
    enumeration order, each under the key of the directory that lists it.
  */
  lemma {:induction false} ScanRecordsCollected(cfg: Config, dir: string, items: seq<Entry>, acc: map<string, seq<string>>)
    requires Within(RootDir(cfg), dir, cfg.sep)
    ensures Scan(cfg, dir, items, acc) == InsertAll(acc, Collected(cfg, dir, items))
    decreases items, 2
  {
    if items != [] {
      var visited := Visit(cfg, dir, items[0], acc);
      VisitRecordsCollected(cfg, dir, items[0], acc);
      ScanRecordsCollected(cfg, dir, items[1..], visited);
      CollectedCons(cfg, dir, items);
      InsertAllAppend(acc, Collected(cfg, dir, [items[0]]), Collected(cfg, dir, items[1..]));
    }
  }

  lemma CollectedFile(cfg: Config, dir: string, n: string)
    requires Within(RootDir(cfg), dir, cfg.sep)
    ensures Collected(cfg, dir, [File(n)])
            == if IsImage(n) then [Pair(CategoryKey(cfg, dir), Join(dir, n, cfg.sep))] else []
  {
    var f := FileRef(dir, n);
    assert [File(n)][1..] == [];
    assert Files(dir, [File(n)], cfg.sep, cfg.includeSubdirectories) == [f];
    assert Select(cfg, [f], IsImage) == (if IsImage(n) then [PairOf(cfg, f)] else []) + Select(cfg, [], IsImage) by {
      assert [f][0] == f && [f][1..] == [];
    }
  }

  lemma CollectedDir(cfg: Config, dir: string, n: string, children: seq<Entry>)
    requires Within(RootDir(cfg), Join(dir, n, cfg.sep), cfg.sep) && Within(RootDir(cfg), dir, cfg.sep)
    ensures Collected(cfg, dir, [Dir(n, children)])
            == if cfg.includeSubdirectories then Collected(cfg, Join(dir, n, cfg.sep), children) else []
  {
    var sep := cfg.sep;
    assert [Dir(n, children)][1..] == [];
    if cfg.includeSubdirectories {
      var below := Files(Join(dir, n, sep), children, sep, true);
      assert Files(dir, [Dir(n, children)], sep, true) == below + [];
      assert below + [] == below;
    } else {
      assert Files(dir, [Dir(n, children)], sep, false) == [];
    }
  }

  lemma CollectedOther(cfg: Config, dir: string, n: string)
    requires Within(RootDir(cfg), dir, cfg.sep)
    ensures Collected(cfg, dir, [Other(n)]) == []
  {
    assert [Other(n)][1..] == [];
    assert Files(dir, [Other(n)], cfg.sep, cfg.includeSubdirectories) == [];
  }

  /** One entry: a directory's images, or the file itself when it is an image. */
  lemma {:induction false} VisitRecordsCollected(cfg: Config, dir: string, item: Entry, acc: map<string, seq<string>>)
    requires Within(RootDir(cfg), dir, cfg.sep)
    ensures Visit(cfg, dir, item, acc) == InsertAll(acc, Collected(cfg, dir, [item]))
    decreases item, 1
  {
    match item
    case File(n) =>
      VisitFileRecorded(cfg, dir, n, acc);
    case Dir(n, children) =>
      VisitDirRecorded(cfg, dir, n, children, acc);
    case Other(n) =>
      CollectedOther(cfg, dir, n);
  }

  lemma VisitFileRecorded(cfg: Config, dir: string, n: string, acc: map<string, seq<string>>)
    requires Within(RootDir(cfg), dir, cfg.sep)
    ensures Visit(cfg, dir, File(n), acc) == InsertAll(acc, Collected(cfg, dir, [File(n)]))
  {
    CollectedFile(cfg, dir, n);
    VisitFile(cfg, dir, n, acc);
    InsertAllOptional(acc, IsImage(n), Pair(CategoryKey(cfg, dir), Join(dir, n, cfg.sep)));
  }

  lemma VisitFile(cfg: Config, dir: string, n: string, acc: map<string, seq<string>>)
    requires Within(RootDir(cfg), dir, cfg.sep)
    ensures Visit(cfg, dir, File(n), acc)
            == if IsImage(n) then Insert(acc, CategoryKey(cfg, dir), Join(dir, n, cfg.sep)) else acc
  {
  }

  /** Recording at most one pair. */
  lemma InsertAllOptional(m: map<string, seq<string>>, b: bool, p: Pair)
    ensures InsertAll(m, if b then [p] else []) == if b then Insert(m, p.key, p.path) else m
  {
    assert [p][0] == p && [p][1..] == [];
  }

  lemma {:induction false} VisitDirRecorded(cfg: Config, dir: string, n: string, children: seq<Entry>, acc: map<string, seq<string>>)
    requires Within(RootDir(cfg), dir, cfg.sep)
    ensures Visit(cfg, dir, Dir(n, children), acc) == InsertAll(acc, Collected(cfg, dir, [Dir(n, children)]))
    decreases Dir(n, children), 0
  {
    JoinWithin(RootDir(cfg), dir, n, cfg.sep);
    CollectedDir(cfg, dir, n, children);
    if cfg.includeSubdirectories {
      ScanRecordsCollected(cfg, Join(dir, n, cfg.sep), children, acc);
    }
  }

  // ---------------------------------------------------------------------
  // What the filled dictionary holds

  lemma {:induction false} PathsForAppend(a: seq<Pair>, b: seq<Pair>, key: string)
    ensures PathsFor(a + b, key) == PathsFor(a, key) + PathsFor(b, key)
  {
    if a == [] {
      assert a + b == b;
    } else {
      var h := if a[0].key == key then [a[0].path] else [];
      assert (a + b)[0] == a[0] && (a + b)[1..] == a[1..] + b;
      assert PathsFor(a + b, key) == h + PathsFor(a[1..] + b, key);
      PathsForAppend(a[1..], b, key);
      AppendAssociative(h, PathsFor(a[1..], key), PathsFor(b, key));
    }
  }

  /** The list at `key` after one insertion, and whether `key` is present. */
  lemma InsertAt(m: map<string, seq<string>>, p: Pair, key: string)
    ensures key in Insert(m, p.key, p.path) <==> key in m || p.key == key
    ensures Existing(Insert(m, p.key, p.path), key)
            == Existing(m, key) + (if p.key == key then [p.path] else [])
  {
  }

  /** The paths of `ps` under `key`: those of its head, then those of its tail. */
  lemma PathsForCons(ps: seq<Pair>, key: string)
    requires ps != []
    ensures PathsFor(ps, key) == (if ps[0].key == key then [ps[0].path] else []) + PathsFor(ps[1..], key)
  {
  }

  /**
    Recording `ps` creates a key exactly when some pair carries it, appends
    that key's paths in order, and leaves every other key as it was.
  */
  lemma InsertAllAt(m: map<string, seq<string>>, ps: seq<Pair>, key: string)
    ensures key in InsertAll(m, ps) <==> key in m || PathsFor(ps, key) != []
    ensures Existing(InsertAll(m, ps), key) == Existing(m, key) + PathsFor(ps, key)
  {
    InsertAllHasKey(m, ps, key);
    InsertAllExisting(m, ps, key);
  }

  lemma {:induction false} InsertAllHasKey(m: map<string, seq<string>>, ps: seq<Pair>, key: string)
    ensures key in InsertAll(m, ps) <==> key in m || PathsFor(ps, key) != []
    decreases ps
  {
    if ps != [] {
      var m' := Insert(m, ps[0].key, ps[0].path);
      assert InsertAll(m, ps) == InsertAll(m', ps[1..]);
      InsertAllHasKey(m', ps[1..], key);
      InsertAt(m, ps[0], key);
      PathsForCons(ps, key);
    }
  }

  lemma {:induction false} InsertAllExisting(m: map<string, seq<string>>, ps: seq<Pair>, key: string)
    ensures Existing(InsertAll(m, ps), key) == Existing(m, key) + PathsFor(ps, key)
    decreases ps
  {
    if ps == [] {
      assert Existing(m, key) + [] == Existing(m, key);
    } else {
      InsertAllExisting(Insert(m, ps[0].key, ps[0].path), ps[1..], key);
      InsertAllExistingStep(m, ps, key);
    }
  }

  lemma InsertAllExistingStep(m: map<string, seq<string>>, ps: seq<Pair>, key: string)
    requires ps != []
    requires var m' := Insert(m, ps[0].key, ps[0].path);
      Existing(InsertAll(m', ps[1..]), key) == Existing(m', key) + PathsFor(ps[1..], key)
    ensures Existing(InsertAll(m, ps), key) == Existing(m, key) + PathsFor(ps, key)
  {
    var m' := Insert(m, ps[0].key, ps[0].path);
    var a, b, c := Existing(m, key), (if ps[0].key == key then [ps[0].path] else []), PathsFor(ps[1..], key);
    assert Existing(m', key) == a + b by { InsertAt(m, ps[0], key); }
    assert PathsFor(ps, key) == b + c by { PathsForCons(ps, key); }
    assert (a + b) + c == a + (b + c) by { AppendAssociative(a, b, c); }
    assert InsertAll(m, ps) == InsertAll(m', ps[1..]);
  }

  lemma AppendAssociative(a: seq<string>, b: seq<string>, c: seq<string>)
    ensures (a + b) + c == a + (b + c)
  {
  }

  /** File `f` lies under the root, is kept, and is recorded as `p` under `key`. */
  predicate Hit(cfg: Config, f: FileRef, keep: string -> bool, key: string, p: string) {
    Within(RootDir(cfg), f.dir, cfg.sep) && keep(f.name) && PairOf(cfg, f) == Pair(key, p)
  }

  /** A path is listed under `key` exactly when a kept file of `fs` has that key and path. */
  lemma {:induction false} SelectPaths(cfg: Config, fs: seq<FileRef>, keep: string -> bool, key: string, p: string)
    requires AllWithinRoot(cfg, fs)
    ensures p in PathsFor(Select(cfg, fs, keep), key)
            <==> exists f :: f in fs && Hit(cfg, f, keep, key, p)
  {
    if fs != [] {
      SelectPathsStep(cfg, fs, keep, key, p);
      SelectPaths(cfg, fs[1..], keep, key, p);
      ExistsInCons(fs, f => Hit(cfg, f, keep, key, p));
    }
  }

  /** Some element of a non-empty sequence satisfies `P` exactly when its head or some element of its tail does. */
  lemma ExistsInCons<T>(s: seq<T>, P: T -> bool)
    requires s != []
    ensures (exists x :: x in s && P(x)) <==> P(s[0]) || exists x :: x in s[1..] && P(x)
  {
    if exists x :: x in s && P(x) {
      var x :| x in s && P(x);
      if x != s[0] {
        assert x in s[1..] by { assert s == [s[0]] + s[1..]; }
      }
    }
    if exists x :: x in s[1..] && P(x) {
      var x :| x in s[1..] && P(x);
      assert x in s;
    }
  }

  /** The paths under `key` of a selection: the head's, if it is kept and has that key, then the tail's. */
  lemma SelectPathsStep(cfg: Config, fs: seq<FileRef>, keep: string -> bool, key: string, p: string)
    requires AllWithinRoot(cfg, fs) && fs != []
    ensures AllWithinRoot(cfg, fs[1..])
    ensures p in PathsFor(Select(cfg, fs, keep), key)
            <==> Hit(cfg, fs[0], keep, key, p) || p in PathsFor(Select(cfg, fs[1..], keep), key)
  {
    assert AllWithinRoot(cfg, fs[1..]) by {
      forall f | f in fs[1..] ensures f in fs { }
    }
    var tail := Select(cfg, fs[1..], keep);
    if keep(fs[0].name) {
      var sel := Select(cfg, fs, keep);
      assert sel == [PairOf(cfg, fs[0])] + tail;
      assert sel[0] == PairOf(cfg, fs[0]) && sel[1..] == tail;
      PathsForCons(sel, key);
    } else {
      assert Select(cfg, fs, keep) == [] + tail;
      assert [] + tail == tail;
    }
  }

  // ---------------------------------------------------------------------
  // The dictionary filled by a walk from the root

  /** Recording the kept files of `fs` into an empty dictionary: which keys appear, and what they list. */
  lemma SelectedKeys(cfg: Config, fs: seq<FileRef>, keep: string -> bool, key: string)
    requires AllWithinRoot(cfg, fs)
    ensures var m := InsertAll(map[], Select(cfg, fs, keep));
      && (key in m <==> exists f :: f in fs && keep(f.name) && CategoryKey(cfg, f.dir) == key)
      && (key in m ==> m[key] == PathsFor(Select(cfg, fs, keep), key))
  {
    var ps := Select(cfg, fs, keep);
    var m := InsertAll(map[], ps);
    InsertAllAt(map[], ps, key);
    if key in m {
      var p := PathsFor(ps, key)[0];
      SelectPaths(cfg, fs, keep, key, p);
    }
    if exists f :: f in fs && keep(f.name) && CategoryKey(cfg, f.dir) == key {
      var f :| f in fs && keep(f.name) && CategoryKey(cfg, f.dir) == key;
      SelectPaths(cfg, fs, keep, key, Join(f.dir, f.name, cfg.sep));
    }
  }

  lemma SelectedPaths(cfg: Config, fs: seq<FileRef>, keep: string -> bool, key: string, p: string)
    requires AllWithinRoot(cfg, fs)
    ensures var m := InsertAll(map[], Select(cfg, fs, keep));
      (key in m && p in m[key])
      <==> exists f :: f in fs && keep(f.name) && CategoryKey(cfg, f.dir) == key && Join(f.dir, f.name, cfg.sep) == p
  {
    InsertAllAt(map[], Select(cfg, fs, keep), key);
    SelectPaths(cfg, fs, keep, key, p);
  }

  /**
    A walk from the root creates a category exactly for the directories that
    directly hold an image, and lists there that directory's images in
    enumeration order.
  */
  lemma ManifestCategories(cfg: Config, items: seq<Entry>, key: string)
    ensures var m := Scan(cfg, RootDir(cfg), items, map[]);
      && (key in m <==> exists f :: f in RootFiles(cfg, items) && IsImage(f.name) && CategoryKey(cfg, f.dir) == key)
      && (key in m ==> m[key] == PathsFor(Collected(cfg, RootDir(cfg), items), key))
  {
    ScanRecordsCollected(cfg, RootDir(cfg), items, map[]);
    SelectedKeys(cfg, RootFiles(cfg, items), IsImage, key);
  }

  /** A path is listed under `key` exactly when it is the path of an image whose directory has that key. */
  lemma ManifestPaths(cfg: Config, items: seq<Entry>, key: string, p: string)
    ensures var m := Scan(cfg, RootDir(cfg), items, map[]);
      (key in m && p in m[key])
      <==> exists f :: f in RootFiles(cfg, items) && IsImage(f.name)
                       && CategoryKey(cfg, f.dir) == key && Join(f.dir, f.name, cfg.sep) == p
  {
    ScanRecordsCollected(cfg, RootDir(cfg), items, map[]);
    SelectedPaths(cfg, RootFiles(cfg, items), IsImage, key, p);
  }

  /** With sub-directories switched off only the root's own images are listed, all under `.`. */
  lemma WithoutSubdirectories(cfg: Config, items: seq<Entry>)
    requires !cfg.includeSubdirectories
    ensures var m := Scan(cfg, RootDir(cfg), items, map[]);
      && (forall key :: key in m ==> key == ".")
      && (forall key, p :: key in m && p in m[key] ==>
            exists n :: File(n) in items && IsImage(n) && p == Join(RootDir(cfg), n, cfg.sep))
  {
    var m := Scan(cfg, RootDir(cfg), items, map[]);
    forall key | key in m ensures key == "." {
      ManifestCategories(cfg, items, key);
    }
    forall key, p | key in m && p in m[key]
      ensures exists n :: File(n) in items && IsImage(n) && p == Join(RootDir(cfg), n, cfg.sep)
    {
      ManifestPaths(cfg, items, key, p);
      var f :| f in RootFiles(cfg, items) && IsImage(f.name)
               && CategoryKey(cfg, f.dir) == key && Join(f.dir, f.name, cfg.sep) == p;
      assert File(f.name) in items;
    }
  }

  // ---------------------------------------------------------------------
  // Counting

  /** The number of paths listed over all categories. */
  ghost function TotalEntries(m: map<string, seq<string>>): nat
    decreases |m|
  {
    if m == map[] then 0
    else
      var k :| k in m;
      assert (m - {k}).Keys == m.Keys - {k};
      |m[k]| + TotalEntries(m - {k})
  }

  lemma TotalEntriesRemove(m: map<string, seq<string>>, k: string)
    requires k in m
    ensures TotalEntries(m) == |m[k]| + TotalEntries(m - {k})
    decreases |m|
  {
    var j :| j in m && TotalEntries(m) == |m[j]| + TotalEntries(m - {j});
    if j != k {
      assert (m - {j}).Keys == m.Keys - {j};
      assert (m - {k}).Keys == m.Keys - {k};
      TotalEntriesRemove(m - {j}, k);
      TotalEntriesRemove(m - {k}, j);
      assert (m - {j}) - {k} == (m - {k}) - {j};
    }
  }

  /** Every insertion adds exactly one listed path. */
  lemma TotalEntriesInsert(m: map<string, seq<string>>, key: string, path: string)
    ensures TotalEntries(Insert(m, key, path)) == TotalEntries(m) + 1
  {
    var r := Insert(m, key, path);
    TotalEntriesRemove(r, key);
    assert r - {key} == m - {key};
    if key in m {
      TotalEntriesRemove(m, key);
    } else {
      assert m - {key} == m;
    }
  }

  lemma {:induction false} TotalEntriesInsertAll(m: map<string, seq<string>>, ps: seq<Pair>)
    ensures TotalEntries(InsertAll(m, ps)) == TotalEntries(m) + |ps|
    decreases ps
  {
    if ps != [] {
      TotalEntriesInsert(m, ps[0].key, ps[0].path);
      TotalEntriesInsertAll(Insert(m, ps[0].key, ps[0].path), ps[1..]);
    }
  }

  /** Two dictionaries with the same keys and lists of the same lengths list as many paths. */
  lemma {:induction false} TotalEntriesSameLengths(m: map<string, seq<string>>, n: map<string, seq<string>>)
    requires m.Keys == n.Keys && forall k :: k in m ==> |m[k]| == |n[k]|
    ensures TotalEntries(m) == TotalEntries(n)
    decreases |m|
  {
    if m == map[] {
      assert n == map[];
    } else {
      var k :| k in m;
      TotalEntriesRemove(m, k);
      TotalEntriesRemove(n, k);
      assert (m - {k}).Keys == m.Keys - {k} && (n - {k}).Keys == n.Keys - {k};
      TotalEntriesSameLengths(m - {k}, n - {k});
    }
  }

  /** The number of allow-listed regular files anywhere in the tree. */
  function CountImages(items: seq<Entry>): nat
    decreases items, 1
  {
    if items == [] then 0 else CountImagesIn(items[0]) + CountImages(items[1..])
  }

  /** The number of allow-listed regular files in one entry (itself, or below it). */
  function CountImagesIn(e: Entry): nat
    decreases e, 0
  {
    match e
    case File(n) => if IsImage(n) then 1 else 0
    case Dir(_, children) => CountImages(children)
    case Other(_) => 0
  }

  lemma {:induction false} ImagesCounted(cfg: Config, dir: string, items: seq<Entry>)
    requires Within(RootDir(cfg), dir, cfg.sep) && cfg.includeSubdirectories
    ensures |Collected(cfg, dir, items)| == CountImages(items)
    decreases items
  {
    if items == [] {
      assert Files(dir, items, cfg.sep, true) == [];
    } else {
      CollectedCons(cfg, dir, items);
      ImagesCounted(cfg, dir, items[1..]);
      JoinWithin(RootDir(cfg), dir, items[0].name, cfg.sep);
      match items[0]
      case File(n) =>
        CollectedFile(cfg, dir, n);
      case Dir(n, children) =>
        CollectedDir(cfg, dir, n, children);
        ImagesCounted(cfg, Join(dir, n, cfg.sep), children);
      case Other(n) =>
        CollectedOther(cfg, dir, n);
    }
  }

  /**
    A walk from the root lists one path per image it reaches; with
    sub-directories switched on, one per allow-listed file of the whole tree.
  */
  lemma ManifestSize(cfg: Config, items: seq<Entry>)
    ensures TotalEntries(Scan(cfg, RootDir(cfg), items, map[])) == |Collected(cfg, RootDir(cfg), items)|
    ensures cfg.includeSubdirectories ==> TotalEntries(Scan(cfg, RootDir(cfg), items, map[])) == CountImages(items)
  {
    ScanRecordsCollected(cfg, RootDir(cfg), items, map[]);
    TotalEntriesInsertAll(map[], Collected(cfg, RootDir(cfg), items));
    if cfg.includeSubdirectories {
      ImagesCounted(cfg, RootDir(cfg), items);
    }
  }

  // ---------------------------------------------------------------------
  // Category keys

  /** A name a directory listing can report: not empty, not `.` or `..`, free of both separators. */
  predicate WellFormedName(n: string) {
    n != "" && n != "." && n != ".." && '/' !in n && '\\' !in n
  }

  predicate WellFormedTree(items: seq<Entry>)
    decreases items
  {
    forall i :: 0 <= i < |items| ==>
      WellFormedName(items[i].name) && (items[i].Dir? ==> WellFormedTree(items[i].children))
  }

  /** `x` is `dir`, or lies below it through a chain of well-formed names. */
  predicate BelowByNames(dir: string, x: string, sep: char) {
    x == dir
    || (dir + [sep] <= x && |x| >= |dir| + 2 && x[|dir| + 1..] != "." && OnlySeparator(x[|dir| + 1..], sep))
  }

  lemma BelowStep(dir: string, n: string, x: string, sep: char)
    requires WellFormedName(n) && BelowByNames(Join(dir, n, sep), x, sep)
    ensures BelowByNames(dir, x, sep)
  {
    var sub := Join(dir, n, sep);
    if x == sub {
      assert x[|dir| + 1..] == n;
    } else {
      var rest := x[|sub| + 1..];
      assert x == dir + [sep] + (n + [sep] + rest);
      assert x[|dir| + 1..] == n + [sep] + rest;
      assert |x[|dir| + 1..]| >= 2;
      assert OnlySeparator(n, sep) by {
        forall i | 0 <= i < |n| ensures n[i] != '/' && n[i] != '\\' {
          assert n[i] in n;
        }
      }
      assert OnlySeparator([sep], sep);
      OnlySeparatorConcat(n, [sep], sep);
      OnlySeparatorConcat(n + [sep], rest, sep);
    }
  }

  /**
    In a well-formed tree every file reached has a well-formed name, in a
    directory below the walk's start through well-formed names.
  */
  lemma {:induction false} FilesBelowByNames(dir: string, items: seq<Entry>, sep: char, recurse: bool)
    requires WellFormedTree(items)
    ensures forall f :: f in Files(dir, items, sep, recurse) ==> BelowByNames(dir, f.dir, sep) && WellFormedName(f.name)
    decreases items
  {
    if items != [] {
      var fs := Files(dir, items, sep, recurse);
      assert WellFormedTree(items[1..]) by {
        forall i | 0 <= i < |items[1..]| ensures items[1..][i] == items[i + 1] { }
      }
      FilesBelowByNames(dir, items[1..], sep, recurse);
      FilesCons(dir, items, sep, recurse);
      assert [items[0]][1..] == [];
      assert WellFormedName(items[0].name);
      match items[0]
      case File(n) =>
        assert Files(dir, [items[0]], sep, recurse) == [FileRef(dir, n)];
      case Dir(n, children) =>
        if recurse {
          var sub := Join(dir, n, sep);
          var below := Files(sub, children, sep, recurse);
          assert Files(dir, [items[0]], sep, recurse) == below + [];
          FilesBelowByNames(sub, children, sep, recurse);
          forall f | f in below ensures BelowByNames(dir, f.dir, sep) && WellFormedName(f.name) {
            BelowStep(dir, n, f.dir, sep);
          }
        } else {
          assert Files(dir, [items[0]], sep, recurse) == [];
        }
      case Other(_) =>
        assert Files(dir, [items[0]], sep, recurse) == [];
    }
  }

  /** Below the root, a directory's key is its relative path with `/` separators, never `.`. */
  lemma SubdirectoryKey(cfg: Config, x: string)
    requires BelowByNames(RootDir(cfg), x, cfg.sep) && x != RootDir(cfg)
    ensures CategoryKey(cfg, x) == ToPosix(x[|RootDir(cfg)| + 1..])
    ensures CategoryKey(cfg, x) != "."
  {
    var rel := x[|RootDir(cfg)| + 1..];
    assert Relative(RootDir(cfg), x, cfg.sep) == rel;
  }

  /** Distinct directories reached get distinct keys. */
  lemma KeyInjective(cfg: Config, x: string, y: string)
    requires BelowByNames(RootDir(cfg), x, cfg.sep) && BelowByNames(RootDir(cfg), y, cfg.sep)
    requires CategoryKey(cfg, x) == CategoryKey(cfg, y)
    ensures x == y
  {
    var root := RootDir(cfg);
    if x != root { SubdirectoryKey(cfg, x); }
    if y != root { SubdirectoryKey(cfg, y); }
    if x != root && y != root {
      ToPosixInjective(x[|root| + 1..], y[|root| + 1..], cfg.sep);
      assert x == root + [cfg.sep] + x[|root| + 1..];
      assert y == root + [cfg.sep] + y[|root| + 1..];
    }
  }

  /**
    In a well-formed tree the key `.` belongs to the root alone, and a key
    names one directory: no file is ever filed under another directory's
    key, an ancestor's included.
  */
  lemma KeysIdentifyDirectories(cfg: Config, items: seq<Entry>)
    requires WellFormedTree(items)
    ensures forall f :: f in RootFiles(cfg, items) ==> (CategoryKey(cfg, f.dir) == "." <==> f.dir == RootDir(cfg))
    ensures forall f, g ::
              (f in RootFiles(cfg, items) && g in RootFiles(cfg, items)
               && CategoryKey(cfg, f.dir) == CategoryKey(cfg, g.dir)) ==> f.dir == g.dir
  {
    var fs := RootFiles(cfg, items);
    FilesBelowByNames(RootDir(cfg), items, cfg.sep, cfg.includeSubdirectories);
    forall f | f in fs ensures CategoryKey(cfg, f.dir) == "." <==> f.dir == RootDir(cfg) {
      if f.dir != RootDir(cfg) { SubdirectoryKey(cfg, f.dir); }
    }
    forall f, g | f in fs && g in fs && CategoryKey(cfg, f.dir) == CategoryKey(cfg, g.dir)
      ensures f.dir == g.dir
    {
      KeyInjective(cfg, f.dir, g.dir);
    }
  }

  // ---------------------------------------------------------------------
  // The extension filter

  /** The last `.` of `name`, when it is not the first character, in a name other than `..`. */
  predicate LastDotAt(name: string, k: int) {
    0 < k < |name| && name[k] == '.' && '.' !in name[k + 1..]
  }

  /** The only suffix of `..` that starts at a `.` after the first character is `.`. */
  lemma DotDotSuffix(k: int)
    requires LastDotAt("..", k)
    ensures ToLowerAscii(".."[k..]) == "."
  {
    assert ".."[k..] == ".";
  }

  /** The extension filter for any allow-list that holds neither `` nor `.`. */
  lemma AllowedExtension(name: string, allowed: seq<string>)
    requires "" !in allowed && "." !in allowed
    ensures ToLowerAscii(ExtName(name)) in allowed <==>
      exists k :: LastDotAt(name, k) && ToLowerAscii(name[k..]) in allowed
  {
    var ext := ExtName(name);
    if ToLowerAscii(ext) in allowed {
      var k := ExtNameStart(name);
      assert LastDotAt(name, k);
    }
    if exists k :: LastDotAt(name, k) && ToLowerAscii(name[k..]) in allowed {
      var k :| LastDotAt(name, k) && ToLowerAscii(name[k..]) in allowed;
      if name == ".." {
        DotDotSuffix(k);
        assert false;
      }
      ExtNameAt(name, k);
    }
  }

  /**
    A name is an image exactly when it has a `.` after its first character,
    and the part from its last `.`, lower-cased, is on the allow-list.
  */
  lemma IsImageMeaning(name: string)
    ensures IsImage(name) <==> exists k :: LastDotAt(name, k) && ToLowerAscii(name[k..]) in ImageExtensions
  {
    assert "" !in ImageExtensions && "." !in ImageExtensions;
    AllowedExtension(name, ImageExtensions);
  }

  /** Names that agree after lower-casing are kept or dropped together. */
  lemma IsImageCaseInsensitive(a: string, b: string)
    requires ToLowerAscii(a) == ToLowerAscii(b)
    ensures IsImage(a) == IsImage(b)
  {
    ExtNameLower(a);
    ExtNameLower(b);
  }
}
