/**
 * Stylesheet discovery (`findScss`): list a directory, map every entry to
 * the `.scss` files below it (a directory recursively, a matching regular
 * file as its own path, anything else as `undefined`), flatten the results
 * and drop the holes.
 *
 * The file system is an in-memory tree: a directory's listing is the
 * sequence of its entries in the order `readdir` returns them, and each
 * entry carries what `stat` would report about it.
 */
module Discovery {
  import opened Paths
  import opened Flattening

  /** A directory entry: a directory with its own listing, a regular file, or anything else. */
  datatype Entry = Dir(name: string, children: seq<Entry>) | File(name: string) | Other(name: string)

  /** What the per-entry callback resolves to for a non-directory: `undefined` or a path string. */
  datatype Slot = Undefined | Path(path: string)

  /** JavaScript truthiness of a slot, the test of `filter((e) => e)`: `undefined` and `""` are falsy. */
  predicate Truthy(v: Slot) {
    v.Path? && v.path != ""
  }

  /** The strings of an array returned by a recursive `findScss`, seen as slots. */
  function Resolved(s: seq<string>): seq<Slot> {
    seq(|s|, i requires 0 <= i < |s| => Path(s[i]))
  }

  /** `filter((e) => e)` over the flattened slots, keeping the strings of the truthy ones in order. */
  function KeepTruthy(s: seq<Slot>): seq<string> {
    if s == [] then []
    else (if Truthy(s[0]) then [s[0].path] else []) + KeepTruthy(s[1..])
  }

  /**
   * The callback of `files.map`: a directory resolves to the array found
   * below it, a regular file whose joined path ends in `.scss` to that path,
   * and every other entry to `undefined`.
   */
  function Visit(base: string, e: Entry): Nested<Slot>
    decreases e
  {
    var filePath := Join(base, e.name);
    match e
    case Dir(_, children) => Arr(Lift(Resolved(FindScss(filePath, children))))
    case File(_) => if EndsWith(filePath, ScssExt) then Leaf(Path(filePath)) else Leaf(Undefined)
    case Other(_) => Leaf(Undefined)
  }

  /** `findScss(base)` where `listing` is what `readdir(base)` returns. */
  function FindScss(base: string, listing: seq<Entry>): seq<string>
    decreases listing
  {
    var slots := seq(|listing|, i requires 0 <= i < |listing| => Visit(base, listing[i]));
    KeepTruthy(Flatten(slots))
  }

  // ---------------------------------------------------------------------
  // Reference definitions: the regular files of a tree and their paths

  /** Paths of the regular files in and below `e`, an entry of the directory `base`. */
  function Part(base: string, e: Entry): seq<string>
    decreases e
  {
    match e
    case File(n) => [Join(base, n)]
    case Dir(n, children) => AllFiles(Join(base, n), children)
    case Other(_) => []
  }

  /** Paths of all regular files below a directory, depth first, in listing order. */
  function AllFiles(base: string, listing: seq<Entry>): seq<string>
    decreases listing
  {
    if listing == [] then [] else Part(base, listing[0]) + AllFiles(base, listing[1..])
  }

  /** The paths that end in `.scss`, in order. */
  function ScssOnly(s: seq<string>): (r: seq<string>)
    ensures forall p :: p in r ==> p in s && EndsWith(p, ScssExt)
  {
    if s == [] then []
    else (if EndsWith(s[0], ScssExt) then [s[0]] else []) + ScssOnly(s[1..])
  }

  /** `p` is the joined path of a regular file in or below the entry `e` of `base`. */
  ghost predicate FileIn(base: string, e: Entry, p: string)
    decreases e
  {
    match e
    case File(n) => p == Join(base, n)
    case Dir(n, children) => FileAt(Join(base, n), children, p)
    case Other(_) => false
  }

  /** `p` is the joined path of a regular file at any depth below the directory `base`. */
  ghost predicate FileAt(base: string, listing: seq<Entry>, p: string)
    decreases listing
  {
    exists i :: 0 <= i < |listing| && FileIn(base, listing[i], p)
  }

  /** A file system's listings: entry names hold no separator and are unique within a directory. */
  ghost predicate WellFormed(listing: seq<Entry>)
    decreases listing
  {
    && (forall i :: 0 <= i < |listing| ==> NoSep(listing[i].name))
    && (forall i :: 0 <= i < |listing| && listing[i].Dir? ==> WellFormed(listing[i].children))
    && (forall i, j :: 0 <= i < j < |listing| ==> listing[i].name != listing[j].name)
  }

  predicate NoDuplicates(s: seq<string>) {
    forall i, j :: 0 <= i < j < |s| ==> s[i] != s[j]
  }

  // ---------------------------------------------------------------------
  // Filtering over concatenations

  lemma {:induction false} KeepTruthyAppend(s: seq<Slot>, t: seq<Slot>)
    ensures KeepTruthy(s + t) == KeepTruthy(s) + KeepTruthy(t)
    decreases s
  {
    if s == [] {
      assert s + t == t;
    } else {
      assert (s + t)[1..] == s[1..] + t;
      KeepTruthyAppend(s[1..], t);
    }
  }

  /** Non-empty paths survive the truthiness filter unchanged. */
  lemma {:induction false} KeepTruthyResolved(s: seq<string>)
    requires forall i :: 0 <= i < |s| ==> s[i] != ""
    ensures KeepTruthy(Resolved(s)) == s
    decreases s
  {
    if s != [] {
      assert Resolved(s)[1..] == Resolved(s[1..]);
      assert s == [s[0]] + s[1..];
      KeepTruthyResolved(s[1..]);
    }
  }

  lemma {:induction false} ScssOnlyAppend(s: seq<string>, t: seq<string>)
    ensures ScssOnly(s + t) == ScssOnly(s) + ScssOnly(t)
    decreases s
  {
    if s == [] {
      assert s + t == t;
    } else {
      assert (s + t)[1..] == s[1..] + t;
      ScssOnlyAppend(s[1..], t);
    }
  }

  lemma {:induction false} AllFilesAppend(base: string, l1: seq<Entry>, l2: seq<Entry>)
    ensures AllFiles(base, l1 + l2) == AllFiles(base, l1) + AllFiles(base, l2)
    decreases l1
  {
    if l1 == [] {
      assert l1 + l2 == l2;
    } else {
      assert (l1 + l2)[1..] == l1[1..] + l2;
      AllFilesAppend(base, l1[1..], l2);
    }
  }

  // ---------------------------------------------------------------------
  // What discovery returns

  /**
   * Discovery returns the paths of the regular files below `base` whose
   * joined path ends in `.scss`, in depth-first listing order: the
   * `undefined` holes and the nesting contribute nothing else.
   */
  lemma {:induction false} FindScssFiltersFiles(base: string, listing: seq<Entry>)
    ensures FindScss(base, listing) == ScssOnly(AllFiles(base, listing))
    decreases listing, 1
  {
    var slots := seq(|listing|, i requires 0 <= i < |listing| => Visit(base, listing[i]));
    if listing != [] {
      var e, rest := listing[0], listing[1..];
      var restSlots := seq(|rest|, i requires 0 <= i < |rest| => Visit(base, rest[i]));
      assert slots == [Visit(base, e)] + restSlots;
      FlattenCons(Visit(base, e), restSlots);
      KeepTruthyAppend(Spread(Visit(base, e)), Flatten(restSlots));
      FindScssFiltersFiles(base, rest);
      ScssOnlyAppend(Part(base, e), AllFiles(base, rest));
      VisitFiltersFiles(base, e);
    }
  }

  /** What one entry's callback contributes after flattening and filtering. */
  lemma {:induction false} VisitFiltersFiles(base: string, e: Entry)
    ensures KeepTruthy(Spread(Visit(base, e))) == ScssOnly(Part(base, e))
    decreases e, 0
  {
    match e
    case Dir(n, children) =>
      var sub := FindScss(Join(base, n), children);
      FindScssFiltersFiles(Join(base, n), children);
      FlattenFlat(Resolved(sub));
      forall i | 0 <= i < |sub| ensures sub[i] != "" {
        assert sub[i] in sub;
      }
      KeepTruthyResolved(sub);
    case File(n) =>
    case Other(_) =>
  }

  lemma AllFilesSingle(base: string, e: Entry)
    ensures AllFiles(base, [e]) == Part(base, e)
  {
  }

  /** Results follow the listing: the matches of two runs of entries are concatenated in order. */
  lemma FindScssAppend(base: string, l1: seq<Entry>, l2: seq<Entry>)
    ensures FindScss(base, l1 + l2) == FindScss(base, l1) + FindScss(base, l2)
  {
    FindScssFiltersFiles(base, l1 + l2);
    FindScssFiltersFiles(base, l1);
    FindScssFiltersFiles(base, l2);
    AllFilesAppend(base, l1, l2);
    ScssOnlyAppend(AllFiles(base, l1), AllFiles(base, l2));
  }

  /**
   * A subdirectory contributes exactly its own matches, as one contiguous
   * run at its position in the listing, even when its name ends in `.scss`.
   */
  lemma FindScssDir(base: string, n: string, children: seq<Entry>)
    ensures FindScss(base, [Dir(n, children)]) == FindScss(Join(base, n), children)
  {
    FindScssFiltersFiles(base, [Dir(n, children)]);
    FindScssFiltersFiles(Join(base, n), children);
    AllFilesSingle(base, Dir(n, children));
  }

  /** A regular file contributes its joined path exactly when its name ends in `.scss`. */
  lemma FindScssFile(base: string, n: string)
    ensures FindScss(base, [File(n)]) == if EndsWith(n, ScssExt) then [Join(base, n)] else []
  {
    FindScssFiltersFiles(base, [File(n)]);
    AllFilesSingle(base, File(n));
    JoinEndsWithScss(base, n);
  }

  /** An entry that is neither a file nor a directory contributes nothing. */
  lemma FindScssOther(base: string, n: string)
    ensures FindScss(base, [Other(n)]) == []
  {
    FindScssFiltersFiles(base, [Other(n)]);
    AllFilesSingle(base, Other(n));
  }

  // ---------------------------------------------------------------------
  // Membership

  /** A path is listed for a directory exactly when it is listed for one of its entries. */
  lemma {:induction false} AllFilesSplit(base: string, listing: seq<Entry>, p: string)
    ensures p in AllFiles(base, listing) <==> exists k :: 0 <= k < |listing| && p in Part(base, listing[k])
    decreases listing
  {
    if listing != [] {
      var rest := listing[1..];
      AllFilesSplit(base, rest, p);
      if exists k :: 0 <= k < |rest| && p in Part(base, rest[k]) {
        var k :| 0 <= k < |rest| && p in Part(base, rest[k]);
        assert p in Part(base, listing[k + 1]);
      }
      if exists k :: 0 <= k < |listing| && p in Part(base, listing[k]) {
        var k :| 0 <= k < |listing| && p in Part(base, listing[k]);
        if k > 0 {
          assert rest[k - 1] == listing[k];
        }
      }
    }
  }

  lemma {:induction false} PartMembers(base: string, e: Entry, p: string)
    ensures p in Part(base, e) <==> FileIn(base, e, p)
    decreases e
  {
    match e
    case File(n) =>
    case Dir(n, children) => AllFilesMembers(Join(base, n), children, p);
    case Other(_) =>
  }

  /** The reference listing holds exactly the paths of the regular files at any depth. */
  lemma {:induction false} AllFilesMembers(base: string, listing: seq<Entry>, p: string)
    ensures p in AllFiles(base, listing) <==> FileAt(base, listing, p)
    decreases listing
  {
    AllFilesSplit(base, listing, p);
    forall k | 0 <= k < |listing|
      ensures p in Part(base, listing[k]) <==> FileIn(base, listing[k], p)
    {
      PartMembers(base, listing[k], p);
    }
  }

  /**
   * Discovery returns exactly the regular files, at any depth, whose joined
   * path ends in `.scss`: no directory (whatever its name), no other entry,
   * and no file with another extension.
   */
  lemma FindScssExact(base: string, listing: seq<Entry>, p: string)
    ensures p in FindScss(base, listing) <==> FileAt(base, listing, p) && EndsWith(p, ScssExt)
  {
    FindScssFiltersFiles(base, listing);
    AllFilesMembers(base, listing, p);
    var all := AllFiles(base, listing);
    if p in all && EndsWith(p, ScssExt) {
      ScssOnlyKeeps(all, p);
    }
  }

  lemma {:induction false} ScssOnlyKeeps(s: seq<string>, p: string)
    requires p in s && EndsWith(p, ScssExt)
    ensures p in ScssOnly(s)
    decreases s
  {
    if s[0] != p {
      ScssOnlyKeeps(s[1..], p);
    }
  }

  /** Every discovered path lies below `base` and ends in `.scss`. */
  lemma FindScssShape(base: string, listing: seq<Entry>, p: string)
    requires p in FindScss(base, listing)
    ensures StartsWith(p, base + [Sep]) && EndsWith(p, ScssExt)
  {
    FindScssFiltersFiles(base, listing);
    AllFilesBelow(base, listing, p);
  }

  lemma {:induction false} PartBelow(base: string, e: Entry, p: string)
    requires p in Part(base, e)
    ensures StartsWith(p, Join(base, e.name))
    ensures |p| == |Join(base, e.name)| || p[|Join(base, e.name)|] == Sep
    decreases e
  {
    var j := Join(base, e.name);
    match e
    case File(n) =>
    case Dir(n, children) =>
      AllFilesBelow(j, children, p);
      assert p[..|j|] == (j + [Sep])[..|j|];
  }

  lemma {:induction false} AllFilesBelow(base: string, listing: seq<Entry>, p: string)
    requires p in AllFiles(base, listing)
    ensures StartsWith(p, base + [Sep])
    decreases listing
  {
    AllFilesSplit(base, listing, p);
    var k :| 0 <= k < |listing| && p in Part(base, listing[k]);
    var j := Join(base, listing[k].name);
    PartBelow(base, listing[k], p);
    assert p[..|base| + 1] == j[..|base| + 1];
  }

  // ---------------------------------------------------------------------
  // No duplicates

  /** In a well-formed tree every regular file is listed once. */
  lemma {:induction false} AllFilesDistinct(base: string, listing: seq<Entry>)
    requires WellFormed(listing)
    ensures NoDuplicates(AllFiles(base, listing))
    decreases listing
  {
    if listing != [] {
      var e, rest := listing[0], listing[1..];
      var mine, others := Part(base, e), AllFiles(base, rest);
      assert WellFormed(rest) by {
        forall i | 0 <= i < |rest| ensures NoSep(rest[i].name) { assert rest[i] == listing[i + 1]; }
        forall i | 0 <= i < |rest| && rest[i].Dir? ensures WellFormed(rest[i].children) {
          assert rest[i] == listing[i + 1];
        }
        forall i, j | 0 <= i < j < |rest| ensures rest[i].name != rest[j].name {
          assert rest[i] == listing[i + 1] && rest[j] == listing[j + 1];
        }
      }
      AllFilesDistinct(base, rest);
      if e.Dir? {
        AllFilesDistinct(Join(base, e.name), e.children);
      }
      forall p | p in others ensures p !in mine {
        AllFilesSplit(base, rest, p);
        var k :| 0 <= k < |rest| && p in Part(base, rest[k]);
        assert rest[k] == listing[k + 1];
        SeparateEntries(base, e, rest[k], p);
      }
      forall i, j | 0 <= i < j < |mine + others| ensures (mine + others)[i] != (mine + others)[j] {
        if i < |mine| && |mine| <= j {
          assert (mine + others)[i] in mine && (mine + others)[j] in others;
        }
      }
    }
  }

  /** Paths below two sibling entries with different names never coincide. */
  lemma SeparateEntries(base: string, e1: Entry, e2: Entry, p: string)
    requires NoSep(e1.name) && NoSep(e2.name) && e1.name != e2.name
    ensures p !in Part(base, e1) || p !in Part(base, e2)
  {
    if p in Part(base, e1) && p in Part(base, e2) {
      var j1, j2 := Join(base, e1.name), Join(base, e2.name);
      PartBelow(base, e1, p);
      PartBelow(base, e2, p);
      assert p == j1 + p[|j1|..];
      assert p == j2 + p[|j2|..];
      SegmentUnique(base, e1.name, p[|j1|..], e2.name, p[|j2|..]);
    }
  }

  /** In a well-formed tree discovery never returns the same path twice. */
  lemma {:induction false} FindScssDistinct(base: string, listing: seq<Entry>)
    requires WellFormed(listing)
    ensures NoDuplicates(FindScss(base, listing))
  {
    AllFilesDistinct(base, listing);
    FindScssFiltersFiles(base, listing);
    ScssOnlyDistinct(AllFiles(base, listing));
  }

  lemma {:induction false} ScssOnlyDistinct(s: seq<string>)
    requires NoDuplicates(s)
    ensures NoDuplicates(ScssOnly(s))
    decreases s
  {
    if s != [] {
      ScssOnlyDistinct(s[1..]);
      var head := if EndsWith(s[0], ScssExt) then [s[0]] else [];
      var tail := ScssOnly(s[1..]);
      assert s[0] !in s[1..];
      forall i, j | 0 <= i < j < |head + tail| ensures (head + tail)[i] != (head + tail)[j] {
        if i < |head| {
          assert (head + tail)[j] in tail;
        }
      }
    }
  }

  // ---------------------------------------------------------------------
  // Example

  /**
   * A listing with `a.scss`, `b.txt` and a directory `sub` holding `c.scss`
   * yields exactly `example/a.scss` and `example/sub/c.scss`, in that order.
   */
  lemma FindScssExample()
    ensures FindScss("example", [File("a.scss"), File("b.txt"), Dir("sub", [File("c.scss")])])
         == ["example/a.scss", "example/sub/c.scss"]
  {
    var a, b, sub := File("a.scss"), File("b.txt"), Dir("sub", [File("c.scss")]);
    ExampleEntries();
    assert [a, b, sub] == [a] + ([b] + [sub]);
    FindScssAppend("example", [a], [b] + [sub]);
    FindScssAppend("example", [b], [sub]);
  }

  lemma ExampleEntries()
    ensures FindScss("example", [File("a.scss")]) == ["example/a.scss"]
    ensures FindScss("example", [File("b.txt")]) == []
    ensures FindScss("example", [Dir("sub", [File("c.scss")])]) == ["example/sub/c.scss"]
  {
    assert "a" + ".scss" == "a.scss";
    ExampleScssFile("example", "a", "example/a.scss");
    ExampleTextFile();
    ExampleSubdir();
  }

  lemma ExampleTextFile()
    ensures FindScss("example", [File("b.txt")]) == []
  {
    FindScssFile("example", "b.txt");
    assert "b.txt"[0] != ScssExt[0];
  }

  lemma ExampleSubdir()
    ensures FindScss("example", [Dir("sub", [File("c.scss")])]) == ["example/sub/c.scss"]
  {
    assert "c" + ".scss" == "c.scss";
    ExampleScssFile("example/sub", "c", "example/sub/c.scss");
    FindScssDir("example", "sub", [File("c.scss")]);
    assert Join("example", "sub") == "example/sub";
  }

  lemma ExampleScssFile(base: string, stem: string, p: string)
    requires p == base + "/" + stem + ".scss"
    ensures FindScss(base, [File(stem + ".scss")]) == [p]
  {
    var name := stem + ".scss";
    FindScssFile(base, name);
    assert name[|name| - |ScssExt|..] == ScssExt;
    assert Join(base, name) == base + "/" + stem + ".scss";
  }
}
