/**
  The walk as written on a plain JavaScript object. `result` starts as `{}`,
  so looking up a key it does not own falls through to the names every
  object inherits (`constructor`, `toString`, `__proto__`, ...). Those
  look-ups give a function or an object, never a list: the truthiness
  test then creates no list and the push throws a TypeError, which ends
  the run. The rest of the model uses ImageScan.Scan, which treats
  `result` as a dictionary of its own keys only.
*/
module InheritedKeys {
  import opened Wrappers
  import opened Paths
  import opened ImageScan

  /** The properties of `Object.prototype`, each a truthy value without a `push` method. */
  const InheritedNames: set<string> := {
    "constructor", "hasOwnProperty", "isPrototypeOf", "propertyIsEnumerable",
    "toLocaleString", "toString", "valueOf", "__defineGetter__",
    "__defineSetter__", "__lookupGetter__", "__lookupSetter__", "__proto__"
  }

  datatype ScanError = PushNotAFunction(key: string)

  /**
    The create-then-push step on a plain object: a key neither owned nor
    inherited gets a new list, an owned key is appended to, and an
    inherited one throws.
  */
  function InsertOnPlainObject(m: map<string, seq<string>>, key: string, path: string)
    : (r: Result<map<string, seq<string>>, ScanError>)
    ensures r.Failure? <==> key !in m && key in InheritedNames
    ensures r.Failure? ==> r.error == PushNotAFunction(key)
  {
    if key in m || key !in InheritedNames then Success(Insert(m, key, path))
    else Failure(PushNotAFunction(key))
  }

  /** Scan on a plain object: the first throw ends the walk. */
  function ScanOnPlainObject(cfg: Config, dir: string, items: seq<Entry>, acc: map<string, seq<string>>)
    : Result<map<string, seq<string>>, ScanError>
    requires Within(RootDir(cfg), dir, cfg.sep)
    decreases items
  {
    if items == [] then Success(acc)
    else
      match VisitOnPlainObject(cfg, dir, items[0], acc)
      case Failure(e) => Failure(e)
      case Success(m) => ScanOnPlainObject(cfg, dir, items[1..], m)
  }

  function VisitOnPlainObject(cfg: Config, dir: string, item: Entry, acc: map<string, seq<string>>)
    : Result<map<string, seq<string>>, ScanError>
    requires Within(RootDir(cfg), dir, cfg.sep)
    decreases item
  {
    var fullPath := Join(dir, item.name, cfg.sep);
    JoinWithin(RootDir(cfg), dir, item.name, cfg.sep);
    match item
    case Dir(_, children) =>
      if cfg.includeSubdirectories then ScanOnPlainObject(cfg, fullPath, children, acc) else Success(acc)
    case File(name) =>
      if IsImage(name) then InsertOnPlainObject(acc, CategoryKey(cfg, dir), fullPath) else Success(acc)
    case Other(_) => Success(acc)
  }

  /** The walk never drops a category. */
  lemma {:induction false} ScanKeysGrow(cfg: Config, dir: string, items: seq<Entry>, acc: map<string, seq<string>>)
    requires Within(RootDir(cfg), dir, cfg.sep)
    ensures acc.Keys <= Scan(cfg, dir, items, acc).Keys
    decreases items, 1
  {
    if items != [] {
      VisitKeysGrow(cfg, dir, items[0], acc);
      ScanKeysGrow(cfg, dir, items[1..], Visit(cfg, dir, items[0], acc));
    }
  }

  lemma {:induction false} VisitKeysGrow(cfg: Config, dir: string, item: Entry, acc: map<string, seq<string>>)
    requires Within(RootDir(cfg), dir, cfg.sep)
    ensures acc.Keys <= Visit(cfg, dir, item, acc).Keys
    decreases item, 0
  {
    JoinWithin(RootDir(cfg), dir, item.name, cfg.sep);
    match item
    case Dir(_, children) =>
      if cfg.includeSubdirectories {
        ScanKeysGrow(cfg, Join(dir, item.name, cfg.sep), children, acc);
      }
    case File(_) =>
    case Other(_) =>
  }

  /** When the walk on a plain object completes, it has built the same dictionary as Scan. */
  lemma {:induction false} SuccessAgrees(cfg: Config, dir: string, items: seq<Entry>, acc: map<string, seq<string>>)
    requires Within(RootDir(cfg), dir, cfg.sep)
    ensures ScanOnPlainObject(cfg, dir, items, acc).Success? ==>
              ScanOnPlainObject(cfg, dir, items, acc).value == Scan(cfg, dir, items, acc)
    decreases items, 1
  {
    if items != [] {
      VisitSuccessAgrees(cfg, dir, items[0], acc);
      var v := VisitOnPlainObject(cfg, dir, items[0], acc);
      if v.Success? {
        SuccessAgrees(cfg, dir, items[1..], v.value);
      }
    }
  }

  lemma {:induction false} VisitSuccessAgrees(cfg: Config, dir: string, item: Entry, acc: map<string, seq<string>>)
    requires Within(RootDir(cfg), dir, cfg.sep)
    ensures VisitOnPlainObject(cfg, dir, item, acc).Success? ==>
              VisitOnPlainObject(cfg, dir, item, acc).value == Visit(cfg, dir, item, acc)
    decreases item, 0
  {
    JoinWithin(RootDir(cfg), dir, item.name, cfg.sep);
    match item
    case Dir(_, children) =>
      if cfg.includeSubdirectories {
        SuccessAgrees(cfg, Join(dir, item.name, cfg.sep), children, acc);
      }
    case File(name) =>
      FileSuccessAgrees(cfg, dir, name, acc);
    case Other(_) =>
  }

  lemma FileSuccessAgrees(cfg: Config, dir: string, name: string, acc: map<string, seq<string>>)
    requires Within(RootDir(cfg), dir, cfg.sep)
    ensures VisitOnPlainObject(cfg, dir, File(name), acc).Success? ==>
              VisitOnPlainObject(cfg, dir, File(name), acc).value == Visit(cfg, dir, File(name), acc)
  {
  }

  /** Scan creates a category with an inherited name that `acc` did not own. */
  predicate CreatesInherited(cfg: Config, dir: string, items: seq<Entry>, acc: map<string, seq<string>>)
    requires Within(RootDir(cfg), dir, cfg.sep)
  {
    exists k :: k in InheritedNames && k in Scan(cfg, dir, items, acc) && k !in acc
  }

  predicate VisitCreatesInherited(cfg: Config, dir: string, item: Entry, acc: map<string, seq<string>>)
    requires Within(RootDir(cfg), dir, cfg.sep)
  {
    exists k :: k in InheritedNames && k in Visit(cfg, dir, item, acc) && k !in acc
  }

  /**
    The walk on a plain object throws exactly when the intended walk would
    create a category whose key is an inherited name.
  */
  lemma {:induction false} FailsExactly(cfg: Config, dir: string, items: seq<Entry>, acc: map<string, seq<string>>)
    requires Within(RootDir(cfg), dir, cfg.sep)
    ensures ScanOnPlainObject(cfg, dir, items, acc).Failure? <==> CreatesInherited(cfg, dir, items, acc)
    decreases items, 1
  {
    if items != [] {
      var item := items[0];
      var v := VisitOnPlainObject(cfg, dir, item, acc);
      var m := Visit(cfg, dir, item, acc);
      VisitFailsExactly(cfg, dir, item, acc);
      VisitSuccessAgrees(cfg, dir, item, acc);
      VisitKeysGrow(cfg, dir, item, acc);
      ScanKeysGrow(cfg, dir, items[1..], m);
      FailsExactly(cfg, dir, items[1..], m);
      if v.Success? {
        FailsStep(cfg, dir, items, acc);
      } else {
        var k :| k in InheritedNames && k in m && k !in acc;
        assert k in Scan(cfg, dir, items, acc);
      }
    } else {
      assert Scan(cfg, dir, items, acc) == acc;
    }
  }

  /** The step of FailsExactly where the first entry does not throw. */
  lemma FailsStep(cfg: Config, dir: string, items: seq<Entry>, acc: map<string, seq<string>>)
    requires Within(RootDir(cfg), dir, cfg.sep) && items != []
    requires VisitOnPlainObject(cfg, dir, items[0], acc).Success?
    requires !VisitCreatesInherited(cfg, dir, items[0], acc)
    requires VisitOnPlainObject(cfg, dir, items[0], acc).value == Visit(cfg, dir, items[0], acc)
    requires acc.Keys <= Visit(cfg, dir, items[0], acc).Keys
    requires ScanOnPlainObject(cfg, dir, items[1..], Visit(cfg, dir, items[0], acc)).Failure?
             <==> CreatesInherited(cfg, dir, items[1..], Visit(cfg, dir, items[0], acc))
    ensures ScanOnPlainObject(cfg, dir, items, acc).Failure? <==> CreatesInherited(cfg, dir, items, acc)
  {
    var m := Visit(cfg, dir, items[0], acc);
    assert Scan(cfg, dir, items, acc) == Scan(cfg, dir, items[1..], m);
    if CreatesInherited(cfg, dir, items, acc) {
      var k :| k in InheritedNames && k in Scan(cfg, dir, items, acc) && k !in acc;
      assert k !in m;
    }
    if CreatesInherited(cfg, dir, items[1..], m) {
      var k :| k in InheritedNames && k in Scan(cfg, dir, items[1..], m) && k !in m;
      assert k !in acc;
    }
  }

  lemma {:induction false} VisitFailsExactly(cfg: Config, dir: string, item: Entry, acc: map<string, seq<string>>)
    requires Within(RootDir(cfg), dir, cfg.sep)
    ensures VisitOnPlainObject(cfg, dir, item, acc).Failure? <==> VisitCreatesInherited(cfg, dir, item, acc)
    decreases item, 0
  {
    JoinWithin(RootDir(cfg), dir, item.name, cfg.sep);
    match item
    case Dir(_, children) =>
      if cfg.includeSubdirectories {
        FailsExactly(cfg, Join(dir, item.name, cfg.sep), children, acc);
      }
    case File(name) =>
      if IsImage(name) {
        var key := CategoryKey(cfg, dir);
        if key in InheritedNames && key !in acc {
          assert key in Visit(cfg, dir, item, acc);
        }
      }
    case Other(_) =>
  }

  /**
    A directory named `constructor` directly under the root, holding one
    image: the intended walk files the image under `constructor`, while
    the walk on a plain object throws.
  */
  lemma ConstructorDirectoryThrows(cfg: Config)
    requires cfg.includeSubdirectories
    ensures var items := [Dir("constructor", [File("a.png")])];
      && "constructor" in Scan(cfg, RootDir(cfg), items, map[])
      && ScanOnPlainObject(cfg, RootDir(cfg), items, map[]) == Failure(PushNotAFunction("constructor"))
  {
    var root := RootDir(cfg);
    var sub := Join(root, "constructor", cfg.sep);
    var items := [Dir("constructor", [File("a.png")])];
    ConstructorKey(cfg);
    InsideConstructor(cfg);
    SingleDirectory(cfg, root, "constructor", [File("a.png")], map[]);
  }

  /** A listing holding only one directory is walked as that directory's own listing. */
  lemma SingleDirectory(cfg: Config, dir: string, n: string, children: seq<Entry>, acc: map<string, seq<string>>)
    requires Within(RootDir(cfg), dir, cfg.sep) && cfg.includeSubdirectories
    ensures Within(RootDir(cfg), Join(dir, n, cfg.sep), cfg.sep)
    ensures Scan(cfg, dir, [Dir(n, children)], acc) == Scan(cfg, Join(dir, n, cfg.sep), children, acc)
    ensures ScanOnPlainObject(cfg, dir, [Dir(n, children)], acc)
            == ScanOnPlainObject(cfg, Join(dir, n, cfg.sep), children, acc)
  {
    JoinWithin(RootDir(cfg), dir, n, cfg.sep);
    assert [Dir(n, children)][1..] == [];
    var r := ScanOnPlainObject(cfg, Join(dir, n, cfg.sep), children, acc);
    if r.Success? {
      assert ScanOnPlainObject(cfg, dir, [Dir(n, children)], acc) == ScanOnPlainObject(cfg, dir, [], r.value);
    }
  }

  lemma InsideConstructor(cfg: Config)
    requires Within(RootDir(cfg), Join(RootDir(cfg), "constructor", cfg.sep), cfg.sep)
    requires CategoryKey(cfg, Join(RootDir(cfg), "constructor", cfg.sep)) == "constructor"
    ensures var sub := Join(RootDir(cfg), "constructor", cfg.sep);
      && "constructor" in Scan(cfg, sub, [File("a.png")], map[])
      && ScanOnPlainObject(cfg, sub, [File("a.png")], map[]) == Failure(PushNotAFunction("constructor"))
  {
    var sub := Join(RootDir(cfg), "constructor", cfg.sep);
    PngIsImage();
    assert [File("a.png")][1..] == [];
    assert "constructor" in Visit(cfg, sub, File("a.png"), map[]);
    assert VisitOnPlainObject(cfg, sub, File("a.png"), map[]) == Failure(PushNotAFunction("constructor"));
  }

  lemma ConstructorKey(cfg: Config)
    ensures Within(RootDir(cfg), Join(RootDir(cfg), "constructor", cfg.sep), cfg.sep)
    ensures CategoryKey(cfg, Join(RootDir(cfg), "constructor", cfg.sep)) == "constructor"
  {
    JoinRelative(RootDir(cfg), "constructor", cfg.sep);
    assert ToPosix("constructor") == "constructor";
  }

  lemma PngIsImage()
    ensures IsImage("a.png")
  {
    assert LastDot("a.png") == Some(1);
    assert ToLowerAscii(".png") == ".png";
  }
}
