/**
 * The driver (class `Reader` of schema/util/genmain.py): it registers every schema file of
 * the given directories in the ordering list under its qualified keys, with the rule the
 * rule table holds for it. A file whose primary key is already registered is not added; it
 * is recorded as an override instead. Within a directory, files are listed in the order of
 * the comparator `fsort`.
 */
module Reading {
  import opened Wrappers
  import opened Names
  import opened RuleTable
  import opened Ordering

  /** The schema file extensions (`Reader.EXT`), in the order `fsort` ranks them. */
  const Ext: seq<string> := ["sql", "pks", "pkb"]

  /** A listed file: its name and its path. */
  datatype Listed = Listed(fn: string, path: string)

  /** A directory named on the command line and the schema files listed under it, in the
      order the directory walk yields them. */
  datatype Dir = Dir(name: string, files: seq<Listed>)

  /** A file that was not added, and the path of the file already registered under its
      primary key (the pair `(path, pk)`). */
  datatype Override = Override(path: string, kept: string)

  // ---------------------------------------------------------------------------------------
  // fsort

  /** Python 2 `cmp` on strings: lexicographic, a proper prefix first. */
  function Cmp(x: string, y: string): (r: int)
    ensures r == -1 || r == 0 || r == 1
  {
    if x == [] && y == [] then 0
    else if x == [] then -1
    else if y == [] then 1
    else if x[0] < y[0] then -1
    else if x[0] > y[0] then 1
    else Cmp(x[1..], y[1..])
  }

  lemma {:induction false} CmpZero(x: string, y: string)
    ensures Cmp(x, y) == 0 <==> x == y
  {
    if x != [] && y != [] && x[0] == y[0] {
      CmpZero(x[1..], y[1..]);
      assert x == [x[0]] + x[1..] && y == [y[0]] + y[1..];
    }
  }

  lemma {:induction false} CmpAntisymmetric(x: string, y: string)
    ensures Cmp(x, y) == -Cmp(y, x)
  {
    if x != [] && y != [] && x[0] == y[0] {
      CmpAntisymmetric(x[1..], y[1..]);
    }
  }

  lemma {:induction false} CmpTransitive(x: string, y: string, z: string)
    requires Cmp(x, y) == -1 && Cmp(y, z) == -1
    ensures Cmp(x, z) == -1
  {
    if x != [] && y != [] && z != [] && x[0] == y[0] && y[0] == z[0] {
      CmpTransitive(x[1..], y[1..], z[1..]);
    }
  }

  /** `x` comes before `y` in lexicographic order: a proper prefix of `y`, or smaller at the
      first position where the two differ. */
  predicate LexLess(x: string, y: string) {
    (|x| < |y| && x == y[..|x|]) ||
    exists i :: 0 <= i < |x| && i < |y| && x[..i] == y[..i] && x[i] < y[i]
  }

  /** After a common first character, `x` is a proper prefix of `y` exactly when the rest
      of `x` is a proper prefix of the rest of `y`. */
  lemma PrefixTail(x: string, y: string)
    requires x != [] && y != [] && x[0] == y[0]
    ensures (|x| < |y| && x == y[..|x|]) <==> (|x[1..]| < |y[1..]| && x[1..] == y[1..][..|x[1..]|])
  {
    if |x| < |y| && x == y[..|x|] {
      assert x[1..] == y[..|x|][1..];
    }
    if |x[1..]| < |y[1..]| && x[1..] == y[1..][..|x[1..]|] {
      assert x == [x[0]] + x[1..] && y[..|x|] == [y[0]] + y[1..][..|x[1..]|];
    }
  }

  /** After a common first character, the first difference of `x` and `y` is one position
      past the first difference of their rests. */
  lemma DiffTail(x: string, y: string)
    requires x != [] && y != [] && x[0] == y[0]
    ensures (exists i :: 0 <= i < |x| && i < |y| && x[..i] == y[..i] && x[i] < y[i]) <==>
            (exists j :: 0 <= j < |x[1..]| && j < |y[1..]| && x[1..][..j] == y[1..][..j] && x[1..][j] < y[1..][j])
  {
    var x', y' := x[1..], y[1..];
    if exists i :: 0 <= i < |x| && i < |y| && x[..i] == y[..i] && x[i] < y[i] {
      var i :| 0 <= i < |x| && i < |y| && x[..i] == y[..i] && x[i] < y[i];
      assert i != 0;
      assert x'[..i - 1] == x[..i][1..] && y'[..i - 1] == y[..i][1..];
      assert x'[i - 1] == x[i] && y'[i - 1] == y[i];
    }
    if exists j :: 0 <= j < |x'| && j < |y'| && x'[..j] == y'[..j] && x'[j] < y'[j] {
      var j :| 0 <= j < |x'| && j < |y'| && x'[..j] == y'[..j] && x'[j] < y'[j];
      assert x[..j + 1] == [x[0]] + x'[..j] && y[..j + 1] == [y[0]] + y'[..j];
      assert x[j + 1] == x'[j] && y[j + 1] == y'[j];
    }
  }

  /** `cmp` puts strings in lexicographic order. */
  lemma {:induction false} CmpLex(x: string, y: string)
    decreases |x|
    ensures Cmp(x, y) == -1 <==> LexLess(x, y)
  {
    if x == [] {
      assert y != [] ==> x == y[..0];
    } else if y == [] {
    } else if x[0] < y[0] {
      assert x[..0] == y[..0];
    } else if x[0] > y[0] {
    } else {
      CmpLex(x[1..], y[1..]);
      PrefixTail(x, y);
      DiffTail(x, y);
    }
  }

  /** `s.rsplit('.', 1)` when it yields two parts: the stem before the last `.` and the
      extension after it. */
  function SplitExt(s: string): (r: Option<(string, string)>)
    ensures r.None? <==> '.' !in s
    ensures r.Some? ==> s == r.value.0 + "." + r.value.1 && '.' !in r.value.1
  {
    match LastDot(s)
    case None => None
    case Some(i) =>
      assert s == s[..i] + "." + s[i + 1..];
      Some((s[..i], s[i + 1..]))
  }

  /** A name splits at the `.` before an extension that holds no `.`. */
  lemma SplitExtOf(stem: string, ext: string)
    requires '.' !in ext
    ensures LastDot(stem + "." + ext) == Some(|stem|)
    ensures SplitExt(stem + "." + ext) == Some((stem, ext)) && StripExt(stem + "." + ext) == stem
  {
    var s := stem + "." + ext;
    assert s[|stem|] == '.';
    var i := LastDot(s).value;
    forall j | i < j < |s| ensures s[j] != '.' {
      assert s[i + 1..][j - i - 1] == s[j];
    }
    forall j | |stem| < j < |s| ensures s[j] != '.' {
      assert s[j] == ext[j - |stem| - 1];
    }
    assert i == |stem|;
    assert s[..|stem|] == stem && s[|stem| + 1..] == ext;
  }

  /** `xs.index(x)`: the first position of `x`; nothing where Python raises `ValueError`. */
  function Position(xs: seq<string>, x: string): (r: Option<nat>)
    ensures r.None? <==> x !in xs
    ensures r.Some? ==> r.value < |xs| && xs[r.value] == x && x !in xs[..r.value]
  {
    if xs == [] then None
    else if xs[0] == x then Some(0)
    else match Position(xs[1..], x)
      case None => None
      case Some(i) =>
        assert xs[..i + 1] == [xs[0]] + xs[1..][..i];
        Some(i + 1)
  }

  /** A name `fsort` ranks: it has an extension and the extension is a schema extension. */
  predicate Ranked(fn: string) {
    SplitExt(fn).Some? && SplitExt(fn).value.1 in Ext
  }

  /**
   * `fsort(a, b)`: by the rank of the extension, then by the stem. When either name has no
   * `.` or an extension outside `Ext`, the `try` block raises and the comparison is 0.
   */
  function Fsort(a: string, b: string): (r: int)
    ensures r == -1 || r == 0 || r == 1
    ensures !Ranked(a) || !Ranked(b) ==> r == 0
  {
    match (SplitExt(a), SplitExt(b))
    case (Some((sa, ea)), Some((sb, eb))) =>
      (match (Position(Ext, ea), Position(Ext, eb))
       case (Some(ia), Some(ib)) => if ia < ib then -1 else if ia > ib then 1 else Cmp(sa, sb)
       case _ => 0)
    case _ => 0
  }

  /** Two names with schema extensions are ordered by the rank of the extension in `Ext`,
      and names with the same extension by their stems. */
  lemma FsortRank(x: string, ea: string, y: string, eb: string)
    requires ea in Ext && eb in Ext
    ensures Position(Ext, ea).Some? && Position(Ext, eb).Some?
    ensures Position(Ext, ea).value < Position(Ext, eb).value ==> Fsort(x + "." + ea, y + "." + eb) == -1
    ensures Position(Ext, ea).value > Position(Ext, eb).value ==> Fsort(x + "." + ea, y + "." + eb) == 1
    ensures ea == eb ==> Fsort(x + "." + ea, y + "." + eb) == Cmp(x, y)
  {
    assert '.' !in ea && '.' !in eb;
    SplitExtOf(x, ea);
    SplitExtOf(y, eb);
  }

  /** `.sql` files come before `.pks` files, which come before `.pkb` files, whatever the stems. */
  lemma FsortExtOrder(x: string, y: string)
    ensures Fsort(x + ".sql", y + ".pks") == -1
    ensures Fsort(x + ".pks", y + ".pkb") == -1
    ensures Fsort(x + ".sql", y + ".pkb") == -1
  {
    assert Position(Ext, "sql") == Some(0);
    assert Position(Ext, "pks") == Some(1);
    assert Position(Ext, "pkb") == Some(2);
    assert x + ".sql" == x + "." + "sql" && y + ".pks" == y + "." + "pks";
    assert x + ".pks" == x + "." + "pks" && y + ".pkb" == y + "." + "pkb";
    FsortRank(x, "sql", y, "pks");
    FsortRank(x, "pks", y, "pkb");
    FsortRank(x, "sql", y, "pkb");
  }

  lemma FsortAntisymmetric(a: string, b: string)
    ensures Fsort(a, b) == -Fsort(b, a)
  {
    if Ranked(a) && Ranked(b) {
      CmpAntisymmetric(SplitExt(a).value.0, SplitExt(b).value.0);
    }
  }

  /** Two ranked names compare equal exactly when they are the same name. */
  lemma FsortZero(a: string, b: string)
    requires Ranked(a) && Ranked(b)
    ensures Fsort(a, b) == 0 <==> a == b
  {
    var (sa, ea) := SplitExt(a).value;
    var (sb, eb) := SplitExt(b).value;
    CmpZero(sa, sb);
    if Fsort(a, b) == 0 {
      assert Position(Ext, ea).value == Position(Ext, eb).value;
      assert ea == eb;
    }
  }

  lemma FsortTransitive(a: string, b: string, c: string)
    requires Fsort(a, b) == -1 && Fsort(b, c) == -1
    ensures Fsort(a, c) == -1
  {
    var (sa, sb, sc) := (SplitExt(a).value.0, SplitExt(b).value.0, SplitExt(c).value.0);
    if Fsort(a, c) != -1 && Cmp(sa, sb) == -1 && Cmp(sb, sc) == -1 {
      CmpTransitive(sa, sb, sc);
    }
  }

  /** A name without a schema extension ties with every name, so `fsort` is not a weak
      order: ties do not compose. */
  lemma FsortTiesDoNotCompose()
    ensures Fsort("b.sql", "README") == 0 && Fsort("README", "a.sql") == 0
    ensures Fsort("b.sql", "a.sql") == 1
  {
    assert "b.sql" == "b" + "." + "sql" && "a.sql" == "a" + "." + "sql";
    SplitExtOf("b", "sql");
    SplitExtOf("a", "sql");
    assert '.' !in "README";
    assert Position(Ext, "sql") == Some(0);
    assert Cmp("b", "a") == 1;
  }

  // ---------------------------------------------------------------------------------------
  // files

  /** `fn` has an extension and it is one of `exts`. */
  predicate HasExt(fn: string, exts: seq<string>) {
    SplitExt(fn).Some? && SplitExt(fn).value.1 in exts
  }

  /** The files of one walked directory `root`, given its names in listing order: each name
      with an extension in `exts`, with the path `root/fn`. */
  function Selected(root: string, names: seq<string>, exts: seq<string>): seq<Listed> {
    if names == [] then []
    else
      var fn := names[|names| - 1];
      Selected(root, names[..|names| - 1], exts) + (if HasExt(fn, exts) then [Listed(fn, root + "/" + fn)] else [])
  }

  /** Exactly the names with one of the extensions are listed, each at its path. */
  lemma {:induction false} SelectedMembers(root: string, names: seq<string>, exts: seq<string>, fn: string, path: string)
    ensures Listed(fn, path) in Selected(root, names, exts) <==> fn in names && HasExt(fn, exts) && path == root + "/" + fn
  {
    if names != [] {
      var pre := names[..|names| - 1];
      SelectedMembers(root, pre, exts, fn, path);
      assert names == pre + [names[|names| - 1]];
    }
  }

  /** The loop of `files(d, extensions)` over the names of one walked directory. */
  method Files(root: string, names: seq<string>, exts: seq<string>) returns (files: seq<Listed>)
    ensures files == Selected(root, names, exts)
  {
    files := [];
    var i := 0;
    while i < |names|
      invariant 0 <= i <= |names|
      invariant files == Selected(root, names[..i], exts)
    {
      var fn := names[i];
      assert names[..i + 1][..i] == names[..i];
      var parts := SplitExt(fn);
      if parts.Some? && parts.value.1 in exts {
        files := files + [Listed(fn, root + "/" + fn)];
      }
      i := i + 1;
    }
    assert names[..|names|] == names;
  }

  // ---------------------------------------------------------------------------------------
  // getfiles, as a function of its inputs

  /** What `getfiles` builds: the ordering list's items and index, and the overrides. */
  datatype Registry = Registry(items: seq<Item>, index: map<Key, Item>, overrides: seq<Override>)

  /** One file of `getfiles`: the file is added under its keys in `d` with the rule the table
      finds for it, unless its primary key is already registered. */
  function RegisterFile(g: Registry, rules: map<Key, Entry>, d: string, f: Listed): Registry {
    var keys := Qualify(One(d), f.fn);
    match FirstMatch(g.index, [keys[0]])
    case None =>
      var item := Item(keys, FirstMatch(rules, keys), f.path);
      Registry(g.items + [item], IndexUnder(g.index, keys, item), g.overrides)
    case Some(found) =>
      g.(overrides := g.overrides + [Override(f.path, found.path)])
  }

  function RegisterFiles(g: Registry, rules: map<Key, Entry>, d: string, fs: seq<Listed>): Registry {
    if fs == [] then g else RegisterFile(RegisterFiles(g, rules, d, fs[..|fs| - 1]), rules, d, fs[|fs| - 1])
  }

  function RegisterDirs(g: Registry, rules: map<Key, Entry>, ds: seq<Dir>): Registry {
    if ds == [] then g
    else RegisterFiles(RegisterDirs(g, rules, ds[..|ds| - 1]), rules, ds[|ds| - 1].name, ds[|ds| - 1].files)
  }

  /** The rules found by the files of `fs`, one per file that finds one, in order. */
  function Found(rules: map<Key, Entry>, d: string, fs: seq<Listed>): seq<Entry> {
    if fs == [] then []
    else
      Found(rules, d, fs[..|fs| - 1]) +
      match FirstMatch(rules, Qualify(One(d), fs[|fs| - 1].fn)) case Some(e) => [e] case None => []
  }

  /** One more file: it is registered after the files before it, and its rule, when it finds
      one, joins the rules they found. */
  lemma FilesStep(g: Registry, rules: map<Key, Entry>, d: string, fs: seq<Listed>, i: nat)
    requires i < |fs|
    ensures RegisterFiles(g, rules, d, fs[..i + 1]) == RegisterFile(RegisterFiles(g, rules, d, fs[..i]), rules, d, fs[i])
    ensures forall e: Entry ::
              multiset(Found(rules, d, fs[..i + 1]))[e] ==
                multiset(Found(rules, d, fs[..i]))[e] + if FirstMatch(rules, Qualify(One(d), fs[i].fn)) == Some(e) then 1 else 0
  {
    assert fs[..i + 1][..i] == fs[..i] && fs[..i + 1][i] == fs[i];
  }

  function FoundDirs(rules: map<Key, Entry>, ds: seq<Dir>): seq<Entry> {
    if ds == [] then [] else FoundDirs(rules, ds[..|ds| - 1]) + Found(rules, ds[|ds| - 1].name, ds[|ds| - 1].files)
  }

  function FileCount(ds: seq<Dir>): nat {
    if ds == [] then 0 else FileCount(ds[..|ds| - 1]) + |ds[|ds| - 1].files|
  }

  function PathSet(items: seq<Item>): set<string> {
    set x | x in items :: x.path
  }

  /**
   * `g` follows `g0` by first-come registration: the old items, overrides and keys are kept;
   * each new item's primary key was free in `g0` and is registered now, no two new items
   * share a primary key, and each new override names the path of a registered item.
   */
  ghost predicate FirstCome(g0: Registry, g: Registry) {
    |g0.items| <= |g.items| && g.items[..|g0.items|] == g0.items &&
    |g0.overrides| <= |g.overrides| && g.overrides[..|g0.overrides|] == g0.overrides &&
    g0.index.Keys <= g.index.Keys &&
    (forall i :: |g0.items| <= i < |g.items| ==>
       g.items[i].keys != [] && g.items[i].keys[0] !in g0.index && g.items[i].keys[0] in g.index) &&
    (forall i, j :: |g0.items| <= i < j < |g.items| ==> g.items[i].keys[0] != g.items[j].keys[0]) &&
    (forall i :: |g0.overrides| <= i < |g.overrides| ==> g.overrides[i].kept in PathSet(g.items))
  }

  /** Every registered key names an item of the list (`DepList.Valid`). */
  ghost predicate Consistent(g: Registry) {
    forall k :: k in g.index ==> g.index[k] in g.items
  }

  lemma FirstComeRefl(g: Registry)
    ensures FirstCome(g, g)
  {
  }

  lemma FirstComeFile(g0: Registry, g: Registry, rules: map<Key, Entry>, d: string, f: Listed)
    requires FirstCome(g0, g) && Consistent(g)
    ensures var r := RegisterFile(g, rules, d, f);
      FirstCome(g0, r) && Consistent(r) && |r.items| + |r.overrides| == |g.items| + |g.overrides| + 1
  {
    var keys := Qualify(One(d), f.fn);
    if keys[0] in g.index {
      assert FirstMatch(g.index, [keys[0]]) == Some(g.index[keys[0]]);
      FirstComeOverride(g0, g, Override(f.path, g.index[keys[0]].path));
    } else {
      assert FirstMatch(g.index, [keys[0]]) == None;
      FirstComeAdd(g0, g, Item(keys, FirstMatch(rules, keys), f.path));
    }
  }

  lemma FirstComeOverride(g0: Registry, g: Registry, o: Override)
    requires FirstCome(g0, g) && Consistent(g) && o.kept in PathSet(g.items)
    ensures FirstCome(g0, g.(overrides := g.overrides + [o]))
  {
    var r := g.(overrides := g.overrides + [o]);
    assert r.overrides[..|g0.overrides|] == g.overrides[..|g0.overrides|];
  }

  lemma FirstComeAdd(g0: Registry, g: Registry, item: Item)
    requires FirstCome(g0, g) && Consistent(g) && item.keys != [] && item.keys[0] !in g.index
    ensures var r := Registry(g.items + [item], IndexUnder(g.index, item.keys, item), g.overrides);
      FirstCome(g0, r) && Consistent(r)
  {
    var r := Registry(g.items + [item], IndexUnder(g.index, item.keys, item), g.overrides);
    AddKeys(g.index, item);
    AddFirstCome(g0, g, r);
    AddConsistent(g, item);
  }

  /** Indexing an item adds exactly its keys. */
  lemma AddKeys(index: map<Key, Item>, item: Item)
    ensures IndexUnder(index, item.keys, item).Keys == index.Keys + set k | k in item.keys
  {
    forall k ensures k in IndexUnder(index, item.keys, item) <==> k in index || k in item.keys {
      IndexUnderValue(index, item.keys, item, k);
    }
  }

  /** Appending an item whose primary key was free keeps the registry first come. */
  lemma AddFirstCome(g0: Registry, g: Registry, r: Registry)
    requires FirstCome(g0, g) && |r.items| == |g.items| + 1 && r.items[..|g.items|] == g.items
    requires r.overrides == g.overrides && r.index.Keys == g.index.Keys + set k | k in r.items[|g.items|].keys
    requires r.items[|g.items|].keys != [] && r.items[|g.items|].keys[0] !in g.index
    ensures FirstCome(g0, r)
  {
    assert r.items[..|g0.items|] == g.items[..|g0.items|];
    assert forall i :: 0 <= i < |g.items| ==> r.items[i] == g.items[i];
    assert PathSet(g.items) <= PathSet(r.items);
  }

  /** Appending an item and indexing it under its keys keeps every key on a listed item. */
  lemma AddConsistent(g: Registry, item: Item)
    requires Consistent(g)
    ensures Consistent(Registry(g.items + [item], IndexUnder(g.index, item.keys, item), g.overrides))
  {
    var r := Registry(g.items + [item], IndexUnder(g.index, item.keys, item), g.overrides);
    forall k | k in r.index ensures r.index[k] in r.items {
      IndexUnderValue(g.index, item.keys, item, k);
    }
  }

  lemma {:induction false} FirstComeFiles(g0: Registry, g: Registry, rules: map<Key, Entry>, d: string, fs: seq<Listed>)
    requires FirstCome(g0, g) && Consistent(g)
    ensures var r := RegisterFiles(g, rules, d, fs);
      FirstCome(g0, r) && Consistent(r) && |r.items| + |r.overrides| == |g.items| + |g.overrides| + |fs|
  {
    if fs != [] {
      FirstComeFiles(g0, g, rules, d, fs[..|fs| - 1]);
      FirstComeFile(g0, RegisterFiles(g, rules, d, fs[..|fs| - 1]), rules, d, fs[|fs| - 1]);
    }
  }

  /**
   * `getfiles` registers first come, first served: every listed file is either added or
   * recorded as an override, the added files' primary keys are distinct and were free,
   * and an override names a registered file.
   */
  lemma {:induction false} FirstComeDirs(g: Registry, rules: map<Key, Entry>, ds: seq<Dir>)
    requires Consistent(g)
    ensures var r := RegisterDirs(g, rules, ds);
      FirstCome(g, r) && Consistent(r) && |r.items| + |r.overrides| == |g.items| + |g.overrides| + FileCount(ds)
  {
    if ds == [] {
      FirstComeRefl(g);
    } else {
      FirstComeDirs(g, rules, ds[..|ds| - 1]);
      FirstComeFiles(g, RegisterDirs(g, rules, ds[..|ds| - 1]), rules, ds[|ds| - 1].name, ds[|ds| - 1].files);
    }
  }

  /** A later file with the same name in the same directory tree (found in another
      sub-directory) is not added: it is recorded as overriding the first one. */
  lemma SameNameOverrides(rules: map<Key, Entry>, d: string, fn: string, p1: string, p2: string)
    ensures var r := RegisterFiles(Registry([], map[], []), rules, d, [Listed(fn, p1), Listed(fn, p2)]);
      |r.items| == 1 && r.items[0].path == p1 && r.overrides == [Override(p2, p1)]
  {
    var keys := Qualify(One(d), fn);
    var item := Item(keys, FirstMatch(rules, keys), p1);
    var fs := [Listed(fn, p1), Listed(fn, p2)];
    assert fs[..1] == [Listed(fn, p1)] && fs[..1][..0] == [];
    var g0 := Registry([], map[], []);
    assert RegisterFiles(g0, rules, d, fs[..1][..0]) == g0;
    assert FirstMatch(g0.index, [keys[0]]) == None;
    var g1 := RegisterFiles(g0, rules, d, fs[..1]);
    assert g1 == Registry([] + [item], IndexUnder(map[], keys, item), []);
    IndexUnderValue(map[], keys, item, keys[0]);
    assert FirstMatch(g1.index, [keys[0]]) == Some(item);
    assert RegisterFiles(g0, rules, d, fs) == RegisterFile(g1, rules, d, Listed(fn, p2));
  }

  /** The keys of a file `stem.ext` of directory `d`: the name, then the stem. */
  lemma QualifyExt(d: string, stem: string, ext: string)
    requires '/' !in stem && '/' !in ext && '.' !in ext
    ensures Qualify(One(d), stem + "." + ext) == [d + "/" + (stem + "." + ext), d + "/" + stem]
  {
    var fn := stem + "." + ext;
    assert fn[|stem|] == '.';
    SplitExtOf(stem, ext);
    QualifyUnqualified(One(d), fn);
  }

  /** Keys of one directory differ when the names differ. */
  lemma KeysDiffer(d: string, a: string, b: string)
    requires a != b
    ensures d + "/" + a != d + "/" + b
  {
    assert (d + "/" + a)[|d| + 1..] == a && (d + "/" + b)[|d| + 1..] == b;
  }

  /**
   * Two files that differ only in their schema extension are both added: their primary keys
   * keep the extension, so neither overrides the other. The later one takes over the key
   * without extension.
   */
  lemma ExtensionVariantsBothAdded(rules: map<Key, Entry>, d: string, stem: string, e1: string, e2: string,
                                   p1: string, p2: string)
    requires '/' !in stem && '/' !in e1 && '/' !in e2 && '.' !in e1 && '.' !in e2 && e1 != e2
    ensures var r := RegisterFiles(Registry([], map[], []), rules, d, [Listed(stem + "." + e1, p1), Listed(stem + "." + e2, p2)]);
      |r.items| == 2 && r.overrides == [] && d + "/" + stem in r.index && r.index[d + "/" + stem].path == p2
  {
    var fn1, fn2 := stem + "." + e1, stem + "." + e2;
    QualifyExt(d, stem, e1);
    QualifyExt(d, stem, e2);
    SplitExtOf(stem, e1);
    SplitExtOf(stem, e2);
    assert fn1 != fn2 && fn2 != stem;
    KeysDiffer(d, fn1, fn2);
    KeysDiffer(d, stem, fn2);
    var k1, k2 := Qualify(One(d), fn1), Qualify(One(d), fn2);
    RegisterTwo(rules, d, Listed(fn1, p1), Listed(fn2, p2));
    var i1 := Item(k1, FirstMatch(rules, k1), p1);
    var i2 := Item(k2, FirstMatch(rules, k2), p2);
    IndexUnderValue(IndexUnder(map[], k1, i1), k2, i2, d + "/" + stem);
  }

  /** Registering two files from scratch whose primary keys differ adds both. */
  lemma RegisterTwo(rules: map<Key, Entry>, d: string, f1: Listed, f2: Listed)
    requires Qualify(One(d), f2.fn)[0] !in Qualify(One(d), f1.fn)
    ensures var k1, k2 := Qualify(One(d), f1.fn), Qualify(One(d), f2.fn);
      var i1, i2 := Item(k1, FirstMatch(rules, k1), f1.path), Item(k2, FirstMatch(rules, k2), f2.path);
      RegisterFiles(Registry([], map[], []), rules, d, [f1, f2]) ==
        Registry([i1, i2], IndexUnder(IndexUnder(map[], k1, i1), k2, i2), [])
  {
    var k1, k2 := Qualify(One(d), f1.fn), Qualify(One(d), f2.fn);
    var i1 := Item(k1, FirstMatch(rules, k1), f1.path);
    var fs := [f1, f2];
    var g0 := Registry([], map[], []);
    assert fs[..1] == [f1] && fs[..1][..0] == [];
    assert RegisterFiles(g0, rules, d, fs[..1][..0]) == g0;
    assert FirstMatch(g0.index, [k1[0]]) == None;
    var m1 := IndexUnder(map[], k1, i1);
    var g1 := RegisterFiles(g0, rules, d, fs[..1]);
    assert g1 == Registry([] + [i1], m1, []);
    IndexUnderValue(map[], k1, i1, k2[0]);
    assert FirstMatch(m1, [k2[0]]) == None;
    assert RegisterFiles(g0, rules, d, fs) == RegisterFile(g1, rules, d, f2);
  }

  // ---------------------------------------------------------------------------------------
  // the Reader object

  /** The path of each item, in order (`[x[2] for x in sorted]`). */
  function Paths(items: seq<Item>): (r: seq<string>)
    ensures |r| == |items| && forall i :: 0 <= i < |items| ==> r[i] == items[i].path
  {
    seq(|items|, i requires 0 <= i < |items| => items[i].path)
  }

  class Reader {
    const deptab: DepTab
    const deplist: DepList
    var overrides: seq<Override>

    ghost predicate Valid()
      reads this, deptab, deplist
    {
      deptab.Valid() && deplist.Valid()
    }

    /** The registration state, read off the ordering list and the overrides. */
    function State(): Registry
      reads this, deplist
    {
      Registry(deplist.unsorted, deplist.index, overrides)
    }

    constructor ()
      ensures Valid() && fresh(deptab) && fresh(deplist) && overrides == []
      ensures deptab.content == [] && deptab.index == map[] && deptab.aliases == map[]
      ensures deplist.unsorted == [] && deplist.index == map[]
    {
      deptab := new DepTab();
      deplist := new DepList();
      overrides := [];
    }

    /** The body of the `getfiles` loop for the file `f` of directory `d`. */
    method AddFile(d: string, f: Listed)
      requires Valid()
      modifies this`overrides, deplist`unsorted, deplist`index, deptab.Entries()
      ensures Valid()
      ensures State() == RegisterFile(old(State()), deptab.index, d, f)
      ensures forall e :: e in deptab.Entries() ==>
        e.hits == old(e.hits) + if FirstMatch(deptab.index, Qualify(One(d), f.fn)) == Some(e) then 1 else 0
    {
      var entry := deptab.Find(d, f.fn);
      var keys := Qualify(One(d), f.fn);
      var found := deplist.Find([keys[0]]);
      if found.None? {
        deplist.Add(keys, entry, f.path);
        return;
      }
      overrides := overrides + [Override(f.path, found.value.path)];
    }

    /** The `getfiles` loop over the files of one directory. */
    method AddFiles(d: string, fs: seq<Listed>)
      requires Valid()
      modifies this`overrides, deplist`unsorted, deplist`index, deptab.Entries()
      ensures Valid()
      ensures State() == RegisterFiles(old(State()), deptab.index, d, fs)
      ensures forall e :: e in deptab.Entries() ==> e.hits == old(e.hits) + multiset(Found(deptab.index, d, fs))[e]
    {
      var i := 0;
      while i < |fs|
        invariant 0 <= i <= |fs|
        invariant Valid()
        invariant State() == RegisterFiles(old(State()), deptab.index, d, fs[..i])
        invariant forall e :: e in deptab.Entries() ==> e.hits == old(e.hits) + multiset(Found(deptab.index, d, fs[..i]))[e]
      {
        FilesStep(old(State()), deptab.index, d, fs, i);
        AddFile(d, fs[i]);
        i := i + 1;
      }
      assert fs[..|fs|] == fs;
    }

    /** `getfiles(directories)`: registers the listed files of every directory, in order. */
    method GetFiles(ds: seq<Dir>)
      requires Valid()
      modifies this`overrides, deplist`unsorted, deplist`index, deptab.Entries()
      ensures Valid()
      ensures State() == RegisterDirs(old(State()), deptab.index, ds)
      ensures forall e :: e in deptab.Entries() ==> e.hits == old(e.hits) + multiset(FoundDirs(deptab.index, ds))[e]
    {
      var i := 0;
      while i < |ds|
        invariant 0 <= i <= |ds|
        invariant Valid()
        invariant State() == RegisterDirs(old(State()), deptab.index, ds[..i])
        invariant forall e :: e in deptab.Entries() ==> e.hits == old(e.hits) + multiset(FoundDirs(deptab.index, ds[..i]))[e]
      {
        assert ds[..i + 1][..i] == ds[..i] && ds[..i + 1][i] == ds[i];
        AddFiles(ds[i].name, ds[i].files);
        i := i + 1;
      }
      assert ds[..|ds|] == ds;
    }

    /**
     * `read(directories)` after the rule files are read: registers the files, then a rule
     * becomes an alias exactly when it had no hits and no listed file found it.
     */
    method Read(ds: seq<Dir>)
      requires Valid()
      modifies this`overrides, deplist`unsorted, deplist`index, deptab.Entries(), deptab`aliases
      ensures Valid()
      ensures State() == RegisterDirs(old(State()), deptab.index, ds)
      ensures forall k :: k in deptab.aliases <==>
        k in deptab.index && old(deptab.index[k].hits) + multiset(FoundDirs(deptab.index, ds))[deptab.index[k]] == 0
      ensures forall k :: k in deptab.aliases ==> deptab.aliases[k] == deptab.index[k]
    {
      GetFiles(ds);
      deptab.FindAliases();
    }

    /** `sort()`: the paths of the sorted items, in order. */
    method Sort() returns (paths: seq<string>)
      requires Valid()
      modifies deplist, deptab.Entries()
      ensures Valid() && deplist.index == old(deplist.index)
      ensures paths == Paths(deplist.sorted)
      ensures Distinct(deplist.sorted) && Elems(deplist.sorted) == Elems(old(deplist.unsorted))
      ensures PostOrder(deptab.AliasTable(), deplist.index, deplist.sorted)
      ensures Reported(deptab.AliasTable(), deplist.index, [], deplist.sorted, deplist.unfound)
    {
      var sorted := deplist.Sort(deptab);
      paths := Paths(sorted);
    }
  }
}
