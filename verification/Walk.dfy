/**
 Choosing what goes into the archive (`plan_entries`, `collect_dir` and `insert_entry` in `src/archive.rs`): a
 recursive walk that fills one map from archive keys to files.
 */
module Walk {
  import opened Common

  /** A file name as the operating system has it; only some are text. */
  datatype Name = Utf8(text: string) | NotUtf8(raw: bytes)

  type Path = seq<Name>

  /** `resolved` is where following the link ends, if it does: the links of a tree may point anywhere, also at a
      directory they are in. */
  datatype Node = File | Dir(readable: bool) | Symlink(resolved: Option<Path>) | Other

  /** The file system, by canonical path. */
  type Tree = map<Path, Node>

  predicate WellNamed(n: Name) {
    n.Utf8? ==> '/' !in n.text
  }

  predicate WellFormed(fs: Tree) {
    forall p, i | p in fs && 0 <= i < |p| :: WellNamed(p[i])
  }

  datatype Error = CannotRead | NotText | NoName | NotRegular | Duplicate(key: string) | NothingToSend

  // ---------- What a walk should find

  /** `p` lies below `dir`, with nothing but real directories between. */
  predicate Reached(fs: Tree, dir: Path, p: Path) {
    p in fs && |dir| < |p| && p[..|dir|] == dir && forall i | |dir| < i < |p| :: IsDir(fs, p[..i])
  }

  predicate IsDir(fs: Tree, p: Path) {
    p in fs && fs[p].Dir?
  }

  /** A regular file, or a link to one. */
  predicate Sendable(fs: Tree, p: Path) {
    p in fs && (fs[p].File? || LinksTo(fs, fs[p], File))
  }

  predicate LinksTo(fs: Tree, n: Node, target: Node) {
    n.Symlink? && n.resolved.Some? && n.resolved.value in fs && fs[n.resolved.value] == target
  }

  predicate Listed(fs: Tree, dir: Path, p: Path) {
    Reached(fs, dir, p) && Sendable(fs, p)
  }

  predicate Legible(fs: Tree, p: Path)
    requires p in fs && p != []
  {
    p[|p| - 1].Utf8? && fs[p] != Dir(false)
  }

  predicate Clean(fs: Tree, dir: Path) {
    dir in fs && fs[dir] == Dir(true) && forall p | p in fs && Reached(fs, dir, p) :: Legible(fs, p)
  }

  function Tail(names: seq<Name>): string {
    if names == [] then ""
    else "/" + (if names[0].Utf8? then names[0].text else "") + Tail(names[1..])
  }

  function Key(prefix: string, dir: Path, p: Path): string
    requires |dir| <= |p|
  {
    prefix + Tail(p[|dir|..])
  }

  // ---------- Keys tell files apart

  lemma SameHead(a: string, s: string, b: string, t: string)
    requires '/' !in a && '/' !in b
    requires s == "" || s[0] == '/'
    requires t == "" || t[0] == '/'
    requires a + s == b + t
    ensures a == b && s == t
  {
    var u := a + s;
    assert forall i | 0 <= i < |a| :: u[i] == a[i] && a[i] in a;
    assert forall i | 0 <= i < |b| :: u[i] == b[i] && b[i] in b;
    assert (s == "" || u[|a|] == '/') && (t == "" || u[|b|] == '/');
    assert |a| == |b|;
    assert u[..|a|] == a && u[..|b|] == b && u[|a|..] == s && u[|b|..] == t;
  }

  predicate AllText(names: seq<Name>) {
    forall i | 0 <= i < |names| :: names[i].Utf8? && WellNamed(names[i])
  }

  lemma {:induction false} TailIsInjective(xs: seq<Name>, ys: seq<Name>)
    requires AllText(xs) && AllText(ys) && Tail(xs) == Tail(ys)
    ensures xs == ys
  {
    if xs != [] && ys != [] {
      var s, t := Tail(xs[1..]), Tail(ys[1..]);
      assert Tail(xs) == "/" + xs[0].text + s && Tail(ys) == "/" + ys[0].text + t;
      assert Tail(xs)[1..] == xs[0].text + s && Tail(ys)[1..] == ys[0].text + t;
      SameHead(xs[0].text, s, ys[0].text, t);
      TailIsInjective(xs[1..], ys[1..]);
    }
  }

  lemma ReachedIsText(fs: Tree, dir: Path, p: Path)
    requires WellFormed(fs) && Clean(fs, dir) && Reached(fs, dir, p)
    ensures AllText(p[|dir|..])
  {
    forall i | |dir| <= i < |p| ensures p[i].Utf8? && WellNamed(p[i]) {
      var q := p[..i + 1];
      assert Reached(fs, dir, q) by {
        assert q == p || IsDir(fs, p[..i + 1]);
        forall j | |dir| < j < |q| ensures IsDir(fs, q[..j]) {
          assert q[..j] == p[..j];
        }
        assert q[..|dir|] == p[..|dir|];
      }
      assert Legible(fs, q) && q[|q| - 1] == p[i];
    }
  }

  lemma SameKeySameFile(dir: Path, prefix: string, p: Path, q: Path)
    requires |dir| <= |p| && |dir| <= |q| && p[..|dir|] == dir == q[..|dir|]
    requires AllText(p[|dir|..]) && AllText(q[|dir|..]) && Key(prefix, dir, p) == Key(prefix, dir, q)
    ensures p == q
  {
    var s, t := Tail(p[|dir|..]), Tail(q[|dir|..]);
    assert (prefix + s)[|prefix|..] == s && (prefix + t)[|prefix|..] == t;
    TailIsInjective(p[|dir|..], q[|dir|..]);
    assert p == dir + p[|dir|..] && q == dir + q[|dir|..];
  }

  /** Within one folder every key stands for one file. */
  lemma KeysAreDistinct(fs: Tree, dir: Path, prefix: string, p: Path, q: Path)
    requires WellFormed(fs) && Clean(fs, dir) && Listed(fs, dir, p) && Listed(fs, dir, q)
    requires Key(prefix, dir, p) == Key(prefix, dir, q)
    ensures p == q
  {
    ReachedIsText(fs, dir, p);
    ReachedIsText(fs, dir, q);
    SameKeySameFile(dir, prefix, p, q);
  }

  // ---------- One level of the walk

  function Below(fs: Tree, dir: Path): set<Path> {
    set p | p in fs && |dir| < |p| && p[..|dir|] == dir
  }

  function Children(fs: Tree, dir: Path): (children: set<Path>)
    ensures forall p | p in children :: p in fs && |p| == |dir| + 1 && p[..|dir|] == dir
  {
    set p | p in Below(fs, dir) && |p| == |dir| + 1
  }

  lemma BelowShrinks(fs: Tree, dir: Path, child: Path)
    requires child in Children(fs, dir)
    ensures |Below(fs, child)| < |Below(fs, dir)|
  {
    forall p | p in Below(fs, child) ensures p in Below(fs, dir) {
      assert p[..|dir|] == p[..|child|][..|dir|];
    }
    SubsetIsSmaller(Below(fs, child), Below(fs, dir), child);
  }

  lemma SubsetIsSmaller<T>(a: set<T>, b: set<T>, x: T)
    requires a <= b && x in b && x !in a
    ensures |a| < |b|
  {
    assert |b - a| > 0;
    assert b == a + (b - a);
  }

  /** Everything reached is a child, or reached through a child that is a real directory. */
  lemma ReachedThroughChild(fs: Tree, dir: Path, p: Path)
    requires |dir| < |p|
    ensures var child := p[..|dir| + 1];
            Reached(fs, dir, p) <==> child in Children(fs, dir) && (p == child || (IsDir(fs, child) && Reached(fs, child, p)))
  {
    var n := |dir|;
    var child := p[..n + 1];
    assert child[..n] == p[..n];
    if |p| == n + 1 {
      assert p == child;
    } else if Reached(fs, dir, p) {
      assert IsDir(fs, p[..n + 1]);
    }
  }

  function TextOf(n: Name): string {
    if n.Utf8? then n.text else ""
  }

  lemma KeyThroughChild(prefix: string, dir: Path, p: Path)
    requires |dir| < |p|
    ensures Key(prefix, dir, p) == Key(prefix + "/" + TextOf(p[|dir|]), p[..|dir| + 1], p)
  {}

  // ---------- The walk

  /** Every file that a folder gives, under its key. */
  function Listing(fs: Tree, dir: Path, prefix: string): set<(string, Path)> {
    set p | p in fs && Listed(fs, dir, p) :: (Key(prefix, dir, p), p)
  }

  /** What the children in `done` give. */
  function Part(fs: Tree, dir: Path, prefix: string, done: set<Path>): set<(string, Path)> {
    set p | p in fs && Listed(fs, dir, p) && p[..|dir| + 1] in done :: (Key(prefix, dir, p), p)
  }

  function ChildListing(fs: Tree, child: Path, key: string): set<(string, Path)> {
    if IsDir(fs, child) then Listing(fs, child, key)
    else if Sendable(fs, child) then {(key, child)}
    else {}
  }

  lemma PartOfAll(fs: Tree, dir: Path, prefix: string)
    ensures Part(fs, dir, prefix, Children(fs, dir)) == Listing(fs, dir, prefix)
    ensures Part(fs, dir, prefix, {}) == {}
  {
    forall p | Listed(fs, dir, p) ensures p[..|dir| + 1] in Children(fs, dir) {
      ReachedThroughChild(fs, dir, p);
    }
    hide Listed, Key, Children;
  }

  lemma ListedThroughChild(fs: Tree, dir: Path, prefix: string, child: Path, p: Path)
    requires child in Children(fs, dir) && |dir| < |p| && p[..|dir| + 1] == child
    ensures Listed(fs, dir, p) <==> if IsDir(fs, child) then Listed(fs, child, p) else p == child && Sendable(fs, child)
    ensures Key(prefix, dir, p) == Key(prefix + "/" + TextOf(child[|dir|]), child, p)
  {
    KeyThroughChild(prefix, dir, p);
    ReachedThroughChild(fs, dir, p);
    hide Children, Key, TextOf;
  }

  lemma PartOfChild(fs: Tree, dir: Path, prefix: string, child: Path)
    requires child in Children(fs, dir)
    ensures Part(fs, dir, prefix, {child}) == ChildListing(fs, child, prefix + "/" + TextOf(child[|dir|]))
  {
    var key := prefix + "/" + TextOf(child[|dir|]);
    forall p | |dir| < |p| && p[..|dir| + 1] == child
      ensures Listed(fs, dir, p) <==> if IsDir(fs, child) then Listed(fs, child, p) else p == child && Sendable(fs, child)
      ensures Key(prefix, dir, p) == Key(key, child, p)
    {
      ListedThroughChild(fs, dir, prefix, child, p);
    }
    assert child[..|dir| + 1] == child && Key(key, child, child) == key;
    forall p | Listed(fs, child, p) ensures |dir| < |p| && p[..|dir| + 1] == child {
      assert p[..|child|] == child;
    }
    forall p | Listed(fs, dir, p) ensures |dir| < |p| {}
    hide Listed, Sendable, Key, Children, IsDir, TextOf;
  }

  lemma PartGrows(fs: Tree, dir: Path, prefix: string, done: set<Path>, child: Path)
    requires child in Children(fs, dir)
    ensures Part(fs, dir, prefix, done + {child})
            == Part(fs, dir, prefix, done) + ChildListing(fs, child, prefix + "/" + TextOf(child[|dir|]))
  {
    PartOfChild(fs, dir, prefix, child);
    hide ChildListing, Listed, Key, Children;
    assert Part(fs, dir, prefix, done + {child}) == Part(fs, dir, prefix, done) + Part(fs, dir, prefix, {child});
  }

  function Pairs(m: map<string, Path>): set<(string, Path)> {
    set key | key in m :: (key, m[key])
  }

  /** `after` is `before` with these entries, all under new keys. */
  ghost predicate Added(given: set<(string, Path)>, before: map<string, Path>, after: map<string, Path>) {
    Pairs(after) == Pairs(before) + given && forall e | e in given :: e.0 !in before
  }

  lemma AddedTwice(g: set<(string, Path)>, h: set<(string, Path)>, a: map<string, Path>, b: map<string, Path>, c: map<string, Path>)
    requires Added(g, a, b) && Added(h, b, c)
    ensures Added(g + h, a, c)
  {}

  lemma AddedNone(m: map<string, Path>)
    ensures Added({}, m, m)
  {}

  lemma AddedOne(m: map<string, Path>, key: string, path: Path)
    requires key !in m
    ensures Added({(key, path)}, m, m[key := path])
  {
    var n := m[key := path];
    assert n[key] == path && (key, path) in Pairs(n);
    forall e | e in Pairs(m) ensures e in Pairs(n) {
      assert n[e.0] == e.1;
    }
  }

  lemma AddedIfNew(m: map<string, Path>, key: string, path: Path)
    ensures key !in m ==> Added({(key, path)}, m, m[key := path])
  {
    if key !in m {
      AddedOne(m, key, path);
    }
  }

  lemma WhereFrom(g: set<(string, Path)>, before: map<string, Path>, after: map<string, Path>, key: string)
    requires Added(g, before, after) && key in after
    ensures key in before || (key, after[key]) in g
  {}

  predicate Claims(fs: Tree, dir: Path, prefix: string, key: string, p: Path) {
    Listed(fs, dir, p) && AllText(p[|dir|..]) && key == Key(prefix, dir, p)
  }

  /** A child that can be walked to its end. */
  predicate CleanChild(fs: Tree, c: Path) {
    c in fs && c != [] && c[|c| - 1].Utf8? && (fs[c].Dir? ==> Clean(fs, c))
  }

  lemma CleanWhole(fs: Tree, dir: Path)
    requires dir in fs && fs[dir] == Dir(true) && forall c | c in Children(fs, dir) :: CleanChild(fs, c)
    ensures Clean(fs, dir)
  {
    forall p | p in fs && Reached(fs, dir, p) ensures Legible(fs, p) {
      ReachedThroughChild(fs, dir, p);
      assert CleanChild(fs, p[..|dir| + 1]);
    }
  }

  lemma IllegibleChild(fs: Tree, dir: Path, child: Path)
    requires child in Children(fs, dir) && child[|dir|].NotUtf8?
    ensures !Clean(fs, dir)
  {}

  lemma UncleanChild(fs: Tree, dir: Path, child: Path)
    requires child in Children(fs, dir) && IsDir(fs, child) && !Clean(fs, child)
    ensures !Clean(fs, dir)
  {}

  lemma ClaimThroughChild(fs: Tree, dir: Path, prefix: string, child: Path, key: string, p: Path)
    requires WellFormed(fs) && child in Children(fs, dir) && child[|dir|].Utf8?
    requires var k := prefix + "/" + TextOf(child[|dir|]);
             if IsDir(fs, child) then Claims(fs, child, k, key, p) else p == child && Sendable(fs, child) && key == k
    ensures Claims(fs, dir, prefix, key, p) && p[..|dir| + 1] == child
  {
    assert p[..|child|] == child;
    ListedThroughChild(fs, dir, prefix, child, p);
    assert WellNamed(child[|dir|]);
    hide Children, Key, Sendable;
    assert p[|dir|..] == [child[|dir|]] + p[|child|..];
  }

  lemma PartIsClaimed(fs: Tree, dir: Path, prefix: string, done: set<Path>, key: string, q: Path)
    requires WellFormed(fs) && done <= Children(fs, dir) && forall c | c in done :: CleanChild(fs, c)
    requires (key, q) in Part(fs, dir, prefix, done)
    ensures Claims(fs, dir, prefix, key, q) && q[..|dir| + 1] in done
  {
    var c := q[..|dir| + 1];
    assert CleanChild(fs, c);
    ReachedThroughChild(fs, dir, q);
    assert AllText(q[|dir|..]) by {
      assert q[|dir|..] == [c[|dir|]] + q[|c|..] && WellNamed(q[|dir|]);
      if q != c {
        ReachedIsText(fs, c, q);
      }
    }
  }

  /** A key that one child finds taken was not put there by another. */
  lemma ClashIsOlder(fs: Tree, dir: Path, prefix: string, done: set<Path>, p: Path, key: string, before: map<string, Path>, after: map<string, Path>)
    requires WellFormed(fs) && done <= Children(fs, dir) && forall c | c in done :: CleanChild(fs, c)
    requires Added(Part(fs, dir, prefix, done), before, after) && key in after
    requires Claims(fs, dir, prefix, key, p) && p[..|dir| + 1] !in done
    ensures key in before
  {
    hide CleanChild, WellFormed, Part, Added, Children, Listed, Key;
    WhereFrom(Part(fs, dir, prefix, done), before, after, key);
    if key !in before {
      var q := after[key];
      PartIsClaimed(fs, dir, prefix, done, key, q);
      ListedIsBelow(fs, dir, p);
      ListedIsBelow(fs, dir, q);
      SameKeySameFile(dir, prefix, p, q);
      assert false;
    }
  }

  lemma ListedIsBelow(fs: Tree, dir: Path, p: Path)
    requires Listed(fs, dir, p)
    ensures |dir| < |p| && p[..|dir|] == dir
  {}

  /** The same for a child as its parent sees it. */
  ghost predicate ChildClaims(fs: Tree, child: Path, name: string, key: string) {
    if IsDir(fs, child) then exists p :: Claims(fs, child, name, key, p) else Sendable(fs, child) && key == name
  }

  lemma TakenInChild(fs: Tree, dir: Path, prefix: string, child: Path, key: string) returns (p: Path)
    requires WellFormed(fs) && child in Children(fs, dir) && child[|dir|].Utf8?
    requires ChildClaims(fs, child, prefix + "/" + TextOf(child[|dir|]), key)
    ensures Claims(fs, dir, prefix, key, p) && p[..|dir| + 1] == child
  {
    hide WellFormed, Children, Claims, Sendable, TextOf;
    p := child;
    if IsDir(fs, child) {
      p :| Claims(fs, child, prefix + "/" + TextOf(child[|dir|]), key, p);
    }
    ClaimThroughChild(fs, dir, prefix, child, key, p);
    ClaimIsBelow(fs, dir, prefix, key, p);
  }

  lemma ClaimIsBelow(fs: Tree, dir: Path, prefix: string, key: string, p: Path)
    requires Claims(fs, dir, prefix, key, p)
    ensures |dir| < |p|
  {}

  /** The walk of `dir` with `todo` still to come. */
  ghost predicate Done(fs: Tree, dir: Path, prefix: string, todo: set<Path>, before: map<string, Path>, after: map<string, Path>) {
    && (forall c | c in Children(fs, dir) - todo :: CleanChild(fs, c))
    && Added(Part(fs, dir, prefix, Children(fs, dir) - todo), before, after)
  }

  lemma NothingDone(fs: Tree, dir: Path, prefix: string, entries: map<string, Path>)
    ensures Done(fs, dir, prefix, Children(fs, dir), entries, entries)
  {}

  lemma AllDone(fs: Tree, dir: Path, prefix: string, before: map<string, Path>, after: map<string, Path>)
    requires dir in fs && fs[dir] == Dir(true) && Done(fs, dir, prefix, {}, before, after)
    ensures Clean(fs, dir) && Added(Listing(fs, dir, prefix), before, after)
  {
    PartOfAll(fs, dir, prefix);
    CleanWhole(fs, dir);
    assert Children(fs, dir) - {} == Children(fs, dir);
  }

  lemma ChildSucceeds(fs: Tree, dir: Path, prefix: string, todo: set<Path>, child: Path, start: map<string, Path>, before: map<string, Path>, after: map<string, Path>)
    requires todo <= Children(fs, dir) && child in todo && child[|dir|].Utf8?
    requires Done(fs, dir, prefix, todo, start, before) && (IsDir(fs, child) ==> Clean(fs, child))
    requires Added(ChildListing(fs, child, prefix + "/" + child[|dir|].text), before, after)
    ensures Done(fs, dir, prefix, todo - {child}, start, after)
  {
    hide Children, Part, ChildListing, Clean, Added;
    var done := Children(fs, dir) - todo;
    PartGrows(fs, dir, prefix, done, child);
    AddedTwice(Part(fs, dir, prefix, done), ChildListing(fs, child, prefix + "/" + child[|dir|].text), start, before, after);
    assert Children(fs, dir) - (todo - {child}) == done + {child};
  }

  lemma ChildFails(fs: Tree, dir: Path, prefix: string, todo: set<Path>, child: Path, start: map<string, Path>, before: map<string, Path>, e: Error)
    requires WellFormed(fs) && todo <= Children(fs, dir) && child in todo && child[|dir|].Utf8?
    requires Done(fs, dir, prefix, todo, start, before)
    requires if e.Duplicate? then e.key in before && ChildClaims(fs, child, prefix + "/" + child[|dir|].text, e.key)
             else IsDir(fs, child) && !Clean(fs, child)
    ensures if e.Duplicate? then e.key in start && exists p :: Claims(fs, dir, prefix, e.key, p) else !Clean(fs, dir)
  {
    hide Children, Part, Clean, Added, CleanChild, WellFormed, Claims, ChildClaims;
    if e.Duplicate? {
      var p := TakenInChild(fs, dir, prefix, child, e.key);
      ClashIsOlder(fs, dir, prefix, Children(fs, dir) - todo, p, e.key, start, before);
    } else {
      UncleanChild(fs, dir, child);
    }
  }

  class Entries {
    var entries: map<string, Path>

    constructor ()
      ensures entries == map[]
    {
      entries := map[];
    }

    method InsertEntry(key: string, path: Path) returns (r: Result<(), Error>)
      modifies this
      ensures r == if key in old(entries) then Err(Duplicate(key)) else Ok(())
      ensures entries == if r.Ok? then old(entries)[key := path] else old(entries)
    {
      if key in entries {
        return Err(Duplicate(key));
      }
      entries := entries[key := path];
      r := Ok(());
    }

    /** A folder is taken whole or not at all, and never clashes with itself. */
    method CollectDir(fs: Tree, dir: Path, prefix: string) returns (r: Result<(), Error>)
      requires WellFormed(fs) && IsDir(fs, dir)
      modifies this
      decreases |Below(fs, dir)|, 0
      ensures r.Ok? ==> Clean(fs, dir) && Added(Listing(fs, dir, prefix), old(entries), entries)
      ensures r.Err? && !r.error.Duplicate? ==> !Clean(fs, dir) && (r.error.CannotRead? || r.error.NotText?)
      ensures r.Err? && r.error.Duplicate? ==>
                r.error.key in old(entries) && exists p :: Claims(fs, dir, prefix, r.error.key, p)
    {
      if !fs[dir].readable {
        assert !Clean(fs, dir);
        return Err(CannotRead);
      }
      hide *;
      NothingDone(fs, dir, prefix, entries);
      var todo := Children(fs, dir);
      while todo != {}
        invariant todo <= Children(fs, dir) && Done(fs, dir, prefix, todo, old(entries), entries)
        decreases |todo|
      {
        var path: Path :| path in todo;
        var name := path[|path| - 1];
        if name.NotUtf8? {
          IllegibleChild(fs, dir, path);
          return Err(NotText);
        }
        ghost var before := entries;
        BelowShrinks(fs, dir, path);
        r := CollectChild(fs, path, prefix + "/" + name.text);
        if r.Err? {
          ChildFails(fs, dir, prefix, todo, path, old(entries), before, r.error);
          return;
        }
        ChildSucceeds(fs, dir, prefix, todo, path, old(entries), before, entries);
        todo := todo - {path};
      }
      AllDone(fs, dir, prefix, old(entries), entries);
      r := Ok(());
    }

    method CollectChild(fs: Tree, path: Path, key: string) returns (r: Result<(), Error>)
      requires WellFormed(fs) && path in fs
      modifies this
      decreases |Below(fs, path)|, 1
      ensures r.Ok? ==> (IsDir(fs, path) ==> Clean(fs, path)) && Added(ChildListing(fs, path, key), old(entries), entries)
      ensures r.Err? && !r.error.Duplicate? ==> IsDir(fs, path) && !Clean(fs, path) && (r.error.CannotRead? || r.error.NotText?)
      ensures r.Err? && r.error.Duplicate? ==> r.error.key in old(entries) && ChildClaims(fs, path, key, r.error.key)
    {
      hide Listing, Below, Added, Clean, Claims, WellFormed;
      match fs[path]
      case Dir(_) =>
        r := CollectDir(fs, path, key);
      case File =>
        r := InsertEntry(key, path);
        AddedIfNew(old(entries), key, path);
      case Symlink(_) =>
        if LinksTo(fs, fs[path], File) {
          r := InsertEntry(key, path);
          AddedIfNew(old(entries), key, path);
        } else {
          r := Ok(());
          AddedNone(entries);
        }
      case Other =>
        r := Ok(());
        AddedNone(entries);
    }

    method AddInput(fs: Tree, input: Input) returns (r: Result<(), Error>)
      requires WellFormed(fs)
      modifies this
      ensures r.Ok? ==> Acceptable(fs, input) && Added(Gives(fs, input), old(entries), entries)
      ensures r.Err? && !r.error.Duplicate? ==> !Acceptable(fs, input)
      ensures r.Err? && r.error.Duplicate? ==> r.error.key in old(entries) && exists p :: (r.error.key, p) in Gives(fs, input)
    {
      hide Listing, Added, Claims, WellFormed;
      if input.at.None? || input.at.value !in fs {
        return Err(CannotRead);
      }
      var at := input.at.value;
      match fs[at]
      case Dir(_) =>
        if input.name.None? {
          return Err(NoName);
        } else if input.name.value.NotUtf8? {
          return Err(NotText);
        }
        r := CollectDir(fs, at, input.name.value.text);
        if r.Err? && r.error.Duplicate? {
          ghost var p :| Claims(fs, at, input.name.value.text, r.error.key, p);
          ClaimIsListed(fs, at, input.name.value.text, r.error.key, p);
        }
      case File =>
        if input.name.None? {
          return Err(NoName);
        } else if input.name.value.NotUtf8? {
          return Err(NotText);
        }
        r := InsertEntry(input.name.value.text, at);
        AddedIfNew(old(entries), input.name.value.text, at);
        assert (input.name.value.text, at) in Gives(fs, input);
      case _ =>
        r := Err(NotRegular);
    }
  }

  lemma ClaimIsListed(fs: Tree, dir: Path, prefix: string, key: string, p: Path)
    requires Claims(fs, dir, prefix, key, p)
    ensures (key, p) in Listing(fs, dir, prefix)
  {}

  // ---------- All the inputs

  /** An input: the name it goes by, if it has one, and where following it ends, if it does. */
  datatype Input = Input(name: Option<Name>, at: Option<Path>)

  predicate Acceptable(fs: Tree, input: Input) {
    && input.at.Some? && input.at.value in fs && (fs[input.at.value].File? || Clean(fs, input.at.value))
    && input.name.Some? && input.name.value.Utf8?
  }

  function Gives(fs: Tree, input: Input): set<(string, Path)> {
    if input.at.None? || input.at.value !in fs || input.name.None? || input.name.value.NotUtf8? then {}
    else
      match fs[input.at.value]
      case File => {(input.name.value.text, input.at.value)}
      case Dir(_) => Listing(fs, input.at.value, input.name.value.text)
      case _ => {}
  }

  function AllGiven(fs: Tree, inputs: seq<Input>): set<(string, Path)> {
    if inputs == [] then {} else AllGiven(fs, inputs[..|inputs| - 1]) + Gives(fs, inputs[|inputs| - 1])
  }

  ghost predicate ShareKey(fs: Tree, a: Input, b: Input, key: string) {
    (exists p :: (key, p) in Gives(fs, a)) && exists q :: (key, q) in Gives(fs, b)
  }

  ghost predicate Apart(fs: Tree, inputs: seq<Input>) {
    forall i, j, key | 0 <= i < j < |inputs| :: !ShareKey(fs, inputs[i], inputs[j], key)
  }

  ghost predicate Plannable(fs: Tree, inputs: seq<Input>) {
    (forall i | 0 <= i < |inputs| :: Acceptable(fs, inputs[i])) && Apart(fs, inputs) && AllGiven(fs, inputs) != {}
  }

  lemma {:induction false} GivenByOne(fs: Tree, inputs: seq<Input>, e: (string, Path)) returns (i: nat)
    requires e in AllGiven(fs, inputs)
    ensures i < |inputs| && e in Gives(fs, inputs[i])
  {
    var n := |inputs| - 1;
    if e in Gives(fs, inputs[n]) {
      i := n;
    } else {
      i := GivenByOne(fs, inputs[..n], e);
    }
  }

  lemma {:induction false} GivenToAll(fs: Tree, inputs: seq<Input>, i: nat)
    requires i < |inputs|
    ensures Gives(fs, inputs[i]) <= AllGiven(fs, inputs)
  {
    var n := |inputs| - 1;
    if i < n {
      GivenToAll(fs, inputs[..n], i);
    }
  }

  lemma GivenKey(fs: Tree, a: Input, key: string) returns (s: string)
    requires exists p :: (key, p) in Gives(fs, a)
    ensures a.at.Some? && a.at.value in fs && a.name.Some? && a.name.value.Utf8? && key == a.name.value.text + s
    ensures if fs[a.at.value].File? then s == "" else fs[a.at.value].Dir? && s != "" && s[0] == '/'
  {
    var p :| (key, p) in Gives(fs, a);
    var at := a.at.value;
    s := if fs[at].File? then "" else Tail(p[|at|..]);
  }

  /** Two inputs can only be in each other's way if they have the same name and are both files or both folders. */
  lemma SharedKeyMeansSameName(fs: Tree, a: Input, b: Input, key: string)
    requires ShareKey(fs, a, b, key) && a.name.Some? && b.name.Some? && WellNamed(a.name.value) && WellNamed(b.name.value)
    ensures a.name == b.name && a.at.Some? && b.at.Some? && a.at.value in fs && b.at.value in fs
    ensures fs[a.at.value].File? <==> fs[b.at.value].File?
  {
    var s := GivenKey(fs, a, key);
    var t := GivenKey(fs, b, key);
    SameHead(a.name.value.text, s, b.name.value.text, t);
  }

  ghost predicate Planned(fs: Tree, inputs: seq<Input>, entries: map<string, Path>) {
    && Pairs(entries) == AllGiven(fs, inputs) && Apart(fs, inputs)
    && forall i | 0 <= i < |inputs| :: Acceptable(fs, inputs[i])
  }

  lemma NewKeysOnly(fs: Tree, inputs: seq<Input>, input: Input, before: map<string, Path>, after: map<string, Path>, i: nat, key: string)
    requires Pairs(before) == AllGiven(fs, inputs) && Added(Gives(fs, input), before, after) && i < |inputs|
    ensures !ShareKey(fs, inputs[i], input, key)
  {
    hide Gives;
    GivenToAll(fs, inputs, i);
    if key !in before {
      assert forall p :: (key, p) !in Pairs(before);
    }
  }

  lemma PlannedGrows(fs: Tree, inputs: seq<Input>, input: Input, before: map<string, Path>, after: map<string, Path>)
    requires Planned(fs, inputs, before) && Acceptable(fs, input) && Added(Gives(fs, input), before, after)
    ensures Planned(fs, inputs + [input], after)
  {
    var all := inputs + [input];
    assert all[..|inputs|] == inputs;
    forall i: nat, key | i < |inputs| ensures !ShareKey(fs, inputs[i], input, key) {
      NewKeysOnly(fs, inputs, input, before, after, i, key);
    }
    hide Gives, Acceptable, ShareKey;
    forall i, j, key | 0 <= i < j < |all| ensures !ShareKey(fs, all[i], all[j], key) {
      if j < |inputs| {
        assert all[i] == inputs[i] && all[j] == inputs[j];
      }
    }
  }

  lemma Clash(fs: Tree, inputs: seq<Input>, j: nat, entries: map<string, Path>, key: string)
    requires j < |inputs| && Planned(fs, inputs[..j], entries)
    requires key in entries && exists q :: (key, q) in Gives(fs, inputs[j])
    ensures exists i | 0 <= i < j :: ShareKey(fs, inputs[i], inputs[j], key)
  {
    hide Gives, Acceptable;
    assert (key, entries[key]) in Pairs(entries);
    var i := GivenByOne(fs, inputs[..j], (key, entries[key]));
    assert ShareKey(fs, inputs[i], inputs[j], key);
  }

  /** Only two different inputs can clash, and the plan holds exactly what the inputs give. */
  method PlanEntries(fs: Tree, inputs: seq<Input>) returns (r: Result<map<string, Path>, Error>)
    requires WellFormed(fs)
    ensures r.Ok? <==> Plannable(fs, inputs)
    ensures r.Ok? ==> Pairs(r.value) == AllGiven(fs, inputs)
    ensures r.Err? && r.error.Duplicate? ==>
              exists i, j :: 0 <= i < j < |inputs| && ShareKey(fs, inputs[i], inputs[j], r.error.key)
  {
    hide WellFormed, Acceptable, Gives, Added, ShareKey;
    var plan := new Entries();
    var none: map<string, Path> := map[];
    assert Pairs(none) == {};
    for i := 0 to |inputs|
      invariant Planned(fs, inputs[..i], plan.entries)
    {
      ghost var before := plan.entries;
      var step := plan.AddInput(fs, inputs[i]);
      if step.Err? {
        if step.error.Duplicate? {
          Clash(fs, inputs, i, before, step.error.key);
        }
        return Err(step.error);
      }
      PlannedGrows(fs, inputs[..i], inputs[i], before, plan.entries);
      assert inputs[..i + 1] == inputs[..i] + [inputs[i]];
    }
    assert inputs[..|inputs|] == inputs;
    if plan.entries == map[] {
      return Err(NothingToSend);
    }
    ghost var key :| key in plan.entries;
    assert (key, plan.entries[key]) in Pairs(plan.entries);
    r := Ok(plan.entries);
  }

  // ---------- An example

  function N(text: string): Name { Utf8(text) }

  /** A folder with a file, a link to a file outside, a link to itself, a dangling link and a subfolder with a file. */
  function ExampleTree(): Tree {
    map[[N("root")] := Dir(true),
        [N("root"), N("real.txt")] := File,
        [N("root"), N("link.txt")] := Symlink(Some([N("outside.txt")])),
        [N("root"), N("loop")] := Symlink(Some([N("root")])),
        [N("root"), N("gone")] := Symlink(None),
        [N("root"), N("sub")] := Dir(true),
        [N("root"), N("sub"), N("deep.txt")] := File,
        [N("outside.txt")] := File]
  }

  lemma TailOne(text: string)
    ensures Tail([N(text)]) == "/" + text
  {
    assert [N(text)][1..] == [];
  }

  const FILE_PATH: Path := [N("root"), N("real.txt")]
  const LINK_PATH: Path := [N("root"), N("link.txt")]
  const DEEP_PATH: Path := [N("root"), N("sub"), N("deep.txt")]

  lemma ExampleListed(p: Path)
    ensures Listed(ExampleTree(), [N("root")], p) <==> p == FILE_PATH || p == LINK_PATH || p == DEEP_PATH
    ensures Listed(ExampleTree(), [N("root")], p) ==> p in ExampleTree()
  {
    assert DEEP_PATH[..2] == [N("root"), N("sub")] && DEEP_PATH[..1] == FILE_PATH[..1] == LINK_PATH[..1] == [N("root")];
  }

  lemma ExampleKeys()
    ensures Key("root", [N("root")], FILE_PATH) == "root/real.txt"
    ensures Key("root", [N("root")], LINK_PATH) == "root/link.txt"
    ensures Key("root", [N("root")], DEEP_PATH) == "root/sub/deep.txt"
  {
    TailOne("real.txt");
    TailOne("link.txt");
    TailOne("deep.txt");
    assert FILE_PATH[1..] == [N("real.txt")] && LINK_PATH[1..] == [N("link.txt")];
    var below := DEEP_PATH[1..];
    assert below[0] == N("sub") && below[1..] == [N("deep.txt")];
    assert Tail(below) == "/" + "sub" + Tail([N("deep.txt")]);
    hide Tail;
    assert "root" + "/real.txt" == "root/real.txt" && "root" + "/link.txt" == "root/link.txt";
    assert "/" + "real.txt" == "/real.txt" && "/" + "link.txt" == "/link.txt" && "/" + "deep.txt" == "/deep.txt";
    assert "root" + ("/" + "sub" + "/deep.txt") == "root/sub/deep.txt";
  }

  /** The walk takes the files and the link to a file, also below a subfolder, under their paths from the folder's name;
      a loose file goes by its name. */
  lemma ExampleGives()
    ensures Gives(ExampleTree(), Input(Some(N("root")), Some([N("root")])))
            == {("root/real.txt", FILE_PATH), ("root/link.txt", LINK_PATH), ("root/sub/deep.txt", DEEP_PATH)}
    ensures Gives(ExampleTree(), Input(Some(N("outside.txt")), Some([N("outside.txt")]))) == {("outside.txt", [N("outside.txt")])}
  {
    var fs := ExampleTree();
    assert fs[[N("root")]] == Dir(true) && fs[[N("outside.txt")]] == File;
    hide ExampleTree, Listed, Key;
    ExampleListing();
  }

  lemma ExampleListing()
    ensures Listing(ExampleTree(), [N("root")], "root")
            == {("root/real.txt", FILE_PATH), ("root/link.txt", LINK_PATH), ("root/sub/deep.txt", DEEP_PATH)}
  {
    hide ExampleTree, Listed, Key;
    ExampleKeys();
    forall p ensures Listed(ExampleTree(), [N("root")], p) <==> p == FILE_PATH || p == LINK_PATH || p == DEEP_PATH
             ensures Listed(ExampleTree(), [N("root")], p) ==> p in ExampleTree() {
      ExampleListed(p);
    }
  }

  /** An input is acceptable if it has a name that is text and leads to a file, or to a readable folder with nothing
      unreadable or misnamed in reach. */
  lemma AcceptableExactly(fs: Tree, input: Input)
    ensures Acceptable(fs, input) <==>
            && input.name.Some? && input.name.value.Utf8? && input.at.Some? && input.at.value in fs
            && var at := input.at.value;
               fs[at] == File
               || (fs[at] == Dir(true)
                   && forall p: Path | p in fs && Reached(fs, at, p) :: p[|p| - 1].Utf8? && (fs[p].Dir? ==> fs[p].readable))
  {}

  const FOLDER := Input(Some(N("root")), Some([N("root")]))
  const LOOSE := Input(Some(N("outside.txt")), Some([N("outside.txt")]))
  const DANGLING := Input(Some(N("gone")), None)

  lemma ExampleIsWellFormed()
    ensures WellFormed(ExampleTree())
  {}

  lemma ExampleIsAcceptable()
    ensures Acceptable(ExampleTree(), FOLDER) && Acceptable(ExampleTree(), LOOSE)
  {}

  /** The example folder and the loose file make a plan. */
  lemma ExamplePlan()
    ensures WellFormed(ExampleTree()) && Plannable(ExampleTree(), [FOLDER, LOOSE])
  {
    var fs, inputs := ExampleTree(), [FOLDER, LOOSE];
    ExampleGives();
    ExampleIsWellFormed();
    ExampleIsAcceptable();
    hide ExampleTree, Gives, Acceptable, WellFormed;
    assert inputs[..1] == [FOLDER] && AllGiven(fs, inputs) == AllGiven(fs, [FOLDER]) + Gives(fs, LOOSE);
    assert ("outside.txt", [N("outside.txt")]) in AllGiven(fs, inputs);
    forall i, j, key | 0 <= i < j < |inputs| ensures !ShareKey(fs, inputs[i], inputs[j], key) {
      assert "outside.txt"[0] == 'o' && "root/real.txt"[0] == 'r' && "root/link.txt"[0] == 'r' && "root/sub/deep.txt"[0] == 'r';
    }
  }

  /** The same file twice, a dangling input or no input at all do not. */
  lemma ExampleRefusals()
    ensures !Plannable(ExampleTree(), [LOOSE, LOOSE]) && !Plannable(ExampleTree(), [FOLDER, DANGLING])
    ensures !Plannable(ExampleTree(), [])
  {
    ExampleGives();
    var fs, twice := ExampleTree(), [LOOSE, LOOSE];
    NotAcceptable(fs, DANGLING);
    hide ExampleTree, Gives, Acceptable;
    assert ("outside.txt", [N("outside.txt")]) in Gives(fs, LOOSE);
    assert ShareKey(fs, twice[0], twice[1], "outside.txt");
    assert !Acceptable(fs, [FOLDER, DANGLING][1]);
  }

  lemma NotAcceptable(fs: Tree, input: Input)
    requires input.at == None
    ensures !Acceptable(fs, input)
  {}
}
