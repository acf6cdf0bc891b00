/**
 * The extension classifier and the inventory walk of `src/inventory_processor.rs`.
 *
 * The directory tree is a value. Walking it follows walkdir: the root is
 * yielded at depth 0, a directory's entries one level deeper, nothing deeper
 * than the depth bound, and `filter_entry` drops every hidden entry together
 * with everything below it. The parallel `for_each` becomes a sequential loop
 * over the walk; the lemmas at the end show that the order of the inserts
 * does not change the map.
 */
module InventoryProcessor {
  import opened Wrappers
  import opened Bytes
  import opened Paths
  import opened FileLenInventory

  // ---------------------------------------------------------------------
  // Extension classifier
  // ---------------------------------------------------------------------

  datatype FileExtension = Txt | Csv | Other

  /**
   * `FileExtension::from_path`: the extension, if it is UTF-8, compared
   * without regard to ASCII case with "txt" and then with "csv".
   */
  function FromPath(p: Path): (r: FileExtension)
    ensures r == Txt <==> Extension(p).Some? && EqIgnoreAsciiCase(Extension(p).value, Ascii("txt"))
    ensures r == Csv <==> Extension(p).Some? && EqIgnoreAsciiCase(Extension(p).value, Ascii("csv"))
  {
    ClassifyExtension(Extension(p))
  }

  /** The match of `from_path` on `extension().and_then(to_str)`. */
  function ClassifyExtension(ext: Option<Name>): (r: FileExtension)
    ensures r == Txt <==> ext.Some? && EqIgnoreAsciiCase(ext.value, Ascii("txt"))
    ensures r == Csv <==> ext.Some? && EqIgnoreAsciiCase(ext.value, Ascii("csv"))
  {
    ClassifierIgnoresEncoding(ext);
    match ext
    case None => Other
    case Some(e) =>
      match ToStr(e)
      case Some(s) =>
        if EqIgnoreAsciiCase(s, Ascii("txt")) then Txt
        else if EqIgnoreAsciiCase(s, Ascii("csv")) then Csv
        else Other
      case None => Other
  }

  /**
   * An extension equal to "txt" or "csv" up to ASCII case is ASCII, so
   * `to_str` never rejects it; and no extension is both.
   */
  lemma {:induction false} ClassifierIgnoresEncoding(ext: Option<Name>)
    ensures ext.Some? && EqIgnoreAsciiCase(ext.value, Ascii("txt")) ==> ToStr(ext.value) == Some(ext.value)
    ensures ext.Some? && EqIgnoreAsciiCase(ext.value, Ascii("csv")) ==> ToStr(ext.value) == Some(ext.value)
    ensures ext.Some? ==> !(EqIgnoreAsciiCase(ext.value, Ascii("txt")) && EqIgnoreAsciiCase(ext.value, Ascii("csv")))
  {
    if ext.Some? {
      TxtIsNotCsv(ext.value);
    }
    if ext.Some? && EqIgnoreAsciiCase(ext.value, Ascii("txt")) {
      EqIgnoreAsciiCaseKeepsAscii(ext.value, Ascii("txt"));
      AsciiIsValidUtf8(ext.value);
    }
    if ext.Some? && EqIgnoreAsciiCase(ext.value, Ascii("csv")) {
      EqIgnoreAsciiCaseKeepsAscii(ext.value, Ascii("csv"));
      AsciiIsValidUtf8(ext.value);
    }
  }

  /** No extension is both "txt" and "csv", whatever its case. */
  lemma {:induction false} TxtIsNotCsv(ext: Name)
    ensures !(EqIgnoreAsciiCase(ext, Ascii("txt")) && EqIgnoreAsciiCase(ext, Ascii("csv")))
  {
    var txt, csv := Ascii("txt"), Ascii("csv");
    assert AsciiLower(txt[0]) != AsciiLower(csv[0]);
  }

  /** `is_text_or_csv_file`: the path's extension is "txt" or "csv", in any ASCII case. */
  function IsTextOrCsvFile(p: Path): (r: bool)
    ensures r <==> Extension(p).Some? &&
                   (EqIgnoreAsciiCase(Extension(p).value, Ascii("txt")) ||
                    EqIgnoreAsciiCase(Extension(p).value, Ascii("csv")))
  {
    FromPath(p) == Txt || FromPath(p) == Csv
  }

  /** The extension of a file name is what follows its last dot, when something comes before that dot. */
  lemma {:induction false} ExtensionAfterLastDot(p: Path, stem: Name, ext: Name)
    requires FileName(p) == Some(stem + [Dot] + ext)
    requires stem != [] && Dot !in ext && stem + [Dot] + ext != [Dot, Dot]
    ensures Extension(p) == Some(ext)
  {
    var n := stem + [Dot] + ext;
    assert n[|stem|] == Dot;
    var r := Extension(p);
    assert r.Some? by {
      assert 0 < |stem| < |n|;
    }
    var k := |n| - |r.value| - 1;
    assert k == |stem| by {
      assert Dot !in n[|stem| + 1..];
      assert Dot !in n[k + 1..];
    }
    assert n[k + 1..] == ext;
  }

  // ---------------------------------------------------------------------
  // The tree and the walk
  // ---------------------------------------------------------------------

  /**
   * A directory tree as the walk meets it. `File` is a regular file, with
   * what opening it for counting yields; `Dir` a directory with its entries
   * in the order the directory lists them; `Special` any other entry: a
   * symbolic link (the walk does not follow links), a special file, or a
   * directory whose listing fails (that failure is a walk error, which is
   * dropped). The name of the node standing for the walk's root is not used:
   * the root's name comes from the path the walk starts at.
   */
  datatype Node =
    | File(name: Name, file: OpenOutcome)
    | Dir(name: Name, children: seq<Node>)
    | Special(name: Name)

  /** What the filesystem guarantees: the entries of one directory have distinct names. */
  predicate WellFormed(n: Node)
    decreases n
  {
    n.Dir? ==>
      && (forall i, j :: 0 <= i < j < |n.children| ==> n.children[i].name != n.children[j].name)
      && (forall i :: 0 <= i < |n.children| ==> WellFormed(n.children[i]))
  }

  /** A walkdir `DirEntry`: its path, its depth below the root, and what it is. */
  datatype DirEntry = DirEntry(path: Path, depth: nat, node: Node)

  /**
   * walkdir's `DirEntry::file_name` for the root: the file name of the
   * start path, or the whole path when it has none (`.`, `..`, `/`).
   */
  function RootFileName(dirPath: Path): Name {
    match FileName(dirPath)
    case Some(n) => n
    case None => Render(dirPath)
  }

  /**
   * The entries that `WalkDir::new(dir_path).max_depth(max_depth)` followed
   * by `filter_entry(|e| !is_hidden(e))` yields for `node`, which sits at
   * `dirPath` followed by `rel` and has the file name `fileName`.
   */
  function WalkFrom(dirPath: Path, rel: seq<Name>, node: Node, fileName: Name, maxDepth: nat): seq<DirEntry>
    decreases node
  {
    if |rel| > maxDepth || IsHidden(fileName) then []
    else
      [DirEntry(dirPath + Normals(rel), |rel|, node)] +
      (if node.Dir? then WalkChildren(dirPath, rel, node.children, maxDepth) else [])
  }

  /** The walk of the entries `children` of the directory at `dirPath` followed by `rel`. */
  function WalkChildren(dirPath: Path, rel: seq<Name>, children: seq<Node>, maxDepth: nat): seq<DirEntry>
    decreases children
  {
    if children == [] then []
    else
      WalkFrom(dirPath, rel + [children[0].name], children[0], children[0].name, maxDepth) +
      WalkChildren(dirPath, rel, children[1..], maxDepth)
  }

  /**
   * The filtered walk from `dirPath`; `root` is what is found there, none
   * when the path cannot be read (the walk then yields only an error, which
   * is dropped).
   */
  function Walk(dirPath: Path, root: Option<Node>, maxDepth: nat): seq<DirEntry> {
    match root
    case None => []
    case Some(n) => WalkFrom(dirPath, [], n, RootFileName(dirPath), maxDepth)
  }

  // ---------------------------------------------------------------------
  // The inventory
  // ---------------------------------------------------------------------

  /** An entry that gets into the inventory: a regular text or CSV file whose lines can be counted. */
  predicate Selected(e: DirEntry, header: bool) {
    e.node.File? && IsTextOrCsvFile(e.path) && CountLines(e.node.file, header).Ok?
  }

  /** The map after the inserts for the entries `es`, processed in order from an empty map. */
  function Collect(es: seq<DirEntry>, header: bool): map<Path, nat>
    decreases |es|
  {
    if es == [] then map[]
    else
      var m := Collect(es[..|es| - 1], header);
      var e := es[|es| - 1];
      if Selected(e, header) then m[e.path := CountLines(e.node.file, header).value] else m
  }

  /**
   * `process_inventory`: start from an empty map and, for every entry of the
   * filtered walk that is a regular file with a text or CSV extension, insert
   * its line count; a file whose count fails is left out.
   */
  method ProcessInventory(dirPath: Path, root: Option<Node>, maxDepth: nat, header: bool)
    returns (inventory: map<Path, nat>)
    ensures inventory == Collect(Walk(dirPath, root, maxDepth), header)
  {
    var entries := Walk(dirPath, root, maxDepth);
    inventory := map[];
    for i := 0 to |entries|
      invariant inventory == Collect(entries[..i], header)
    {
      var entry := entries[i];
      CollectPrefix(entries, i, header);
      if entry.node.File? && IsTextOrCsvFile(entry.path) {
        var counted := CountLines(entry.node.file, header);
        if counted.Ok? {
          inventory := inventory[entry.path := counted.value];
        }
      }
    }
    assert entries[..|entries|] == entries;
  }

  /** One more entry: its insert, if it is a text or CSV file whose count succeeds. */
  lemma {:induction false} CollectPrefix(es: seq<DirEntry>, i: nat, header: bool)
    requires i < |es|
    ensures Collect(es[..i + 1], header) ==
      if Selected(es[i], header) then Collect(es[..i], header)[es[i].path := CountLines(es[i].node.file, header).value]
      else Collect(es[..i], header)
  {
    assert es[..i + 1][..i] == es[..i];
  }

  // ---------------------------------------------------------------------
  // What the map holds, whatever the order of the inserts
  // ---------------------------------------------------------------------

  /** The keys are the paths of the selected entries, and each value is the count of one of them. */
  lemma {:induction false} CollectHolds(es: seq<DirEntry>, header: bool)
    ensures forall p :: p in Collect(es, header) <==> exists e :: e in es && e.path == p && Selected(e, header)
    ensures forall p :: p in Collect(es, header) ==> Supplied(es, header, p, Collect(es, header)[p])
    decreases |es|
  {
    if es != [] {
      var init := es[..|es| - 1];
      var last := es[|es| - 1];
      CollectHolds(init, header);
      CollectStep(init, last, header);
      assert es == init + [last];
    }
  }

  /** The step of `CollectHolds`: one more entry at the end. */
  lemma {:induction false} CollectStep(init: seq<DirEntry>, last: DirEntry, header: bool)
    requires forall p :: p in Collect(init, header) <==> exists e :: e in init && e.path == p && Selected(e, header)
    requires forall p :: p in Collect(init, header) ==> Supplied(init, header, p, Collect(init, header)[p])
    ensures forall p :: p in Collect(init + [last], header) <==> exists e :: e in init + [last] && e.path == p && Selected(e, header)
    ensures forall p :: p in Collect(init + [last], header) ==> Supplied(init + [last], header, p, Collect(init + [last], header)[p])
  {
    var es := init + [last];
    assert es[..|es| - 1] == init;
    assert forall e :: e in es <==> e in init || e == last;
    var m := Collect(init, header);
    forall p | p in Collect(es, header) ensures Supplied(es, header, p, Collect(es, header)[p]) {
      if !(Selected(last, header) && p == last.path) {
        assert Supplied(init, header, p, m[p]);
      }
    }
  }

  /** Some selected entry of `es` at path `p` counts `count`. */
  ghost predicate Supplied(es: seq<DirEntry>, header: bool, p: Path, count: nat) {
    exists e :: e in es && e.path == p && Selected(e, header) && CountLines(e.node.file, header) == Ok(count)
  }

  /** Entries that share a path are the same entry. */
  ghost predicate PathsDetermineEntries(es: seq<DirEntry>) {
    forall e1, e2 :: e1 in es && e2 in es && e1.path == e2.path ==> e1 == e2
  }

  /** When a path determines its entry, every selected entry is in the map with its own count. */
  lemma {:induction false} CollectValue(es: seq<DirEntry>, header: bool, e: DirEntry)
    requires PathsDetermineEntries(es)
    requires e in es && Selected(e, header)
    ensures e.path in Collect(es, header)
    ensures Collect(es, header)[e.path] == CountLines(e.node.file, header).value
  {
    CollectHolds(es, header);
  }

  /** The keys are the paths of the selected entries. */
  lemma {:induction false} CollectKeys(es: seq<DirEntry>, header: bool, p: Path)
    ensures p in Collect(es, header) <==> exists e :: e in es && e.path == p && Selected(e, header)
  {
    CollectHolds(es, header);
  }

  /** Two listings of the same entries, in which a path determines its entry, give the same map. */
  lemma {:induction false} CollectOrderIndependent(es: seq<DirEntry>, es': seq<DirEntry>, header: bool)
    requires PathsDetermineEntries(es)
    requires forall e :: e in es <==> e in es'
    ensures Collect(es, header) == Collect(es', header)
  {
    var m, m' := Collect(es, header), Collect(es', header);
    forall p | p in m ensures p in m' && m'[p] == m[p] {
      CollectKeys(es, header, p);
      var e :| e in es && e.path == p && Selected(e, header);
      CollectValue(es, header, e);
      CollectValue(es', header, e);
    }
    forall p | p in m' ensures p in m {
      CollectKeys(es', header, p);
      var e :| e in es' && e.path == p && Selected(e, header);
      CollectValue(es, header, e);
    }
    assert m.Keys == m'.Keys;
  }

  // ---------------------------------------------------------------------
  // What the walk yields
  // ---------------------------------------------------------------------

  /** Every name on a route is visible (not hidden). */
  ghost predicate Visible(names: seq<Name>) {
    forall k :: 0 <= k < |names| ==> !IsHidden(names[k])
  }

  /** The position of the first entry named `name`. */
  function FindChild(children: seq<Node>, name: Name): (r: Option<nat>)
    ensures r.Some? ==> r.value < |children| && children[r.value].name == name
    ensures r.None? ==> forall i :: 0 <= i < |children| ==> children[i].name != name
  {
    if children == [] then None
    else if children[0].name == name then Some(0)
    else match FindChild(children[1..], name)
      case None => None
      case Some(i) => Some(i + 1)
  }

  /** The node reached from `node` by following the entry names `names`. */
  function Lookup(node: Node, names: seq<Name>): Option<Node>
    decreases |names|
  {
    if names == [] then Some(node)
    else if !node.Dir? then None
    else match FindChild(node.children, names[0])
      case None => None
      case Some(i) => Lookup(node.children[i], names[1..])
  }

  /** With distinct names, looking up an entry's name finds that entry. */
  lemma {:induction false} FindChildDistinct(children: seq<Node>, k: nat)
    requires k < |children|
    requires forall i, j :: 0 <= i < j < |children| ==> children[i].name != children[j].name
    ensures FindChild(children, children[k].name) == Some(k)
  {
    var r := FindChild(children, children[k].name);
    assert r.Some?;
  }

  /** `e` is the node reached from `node`, at `dirPath` + `rel`, by the visible route `more`, within the depth bound. */
  ghost predicate ReachedBy(dirPath: Path, rel: seq<Name>, node: Node, maxDepth: nat, e: DirEntry, more: seq<Name>) {
    && e.path == dirPath + Normals(rel + more)
    && e.depth == |rel| + |more| <= maxDepth
    && Visible(more)
    && Lookup(node, more) == Some(e.node)
  }

  ghost predicate Reached(dirPath: Path, rel: seq<Name>, node: Node, maxDepth: nat, e: DirEntry) {
    exists more :: ReachedBy(dirPath, rel, node, maxDepth, e, more)
  }

  /** `e` is reached through the visible `k`-th entry of a directory. */
  ghost predicate ReachedBelow(dirPath: Path, rel: seq<Name>, cs: seq<Node>, maxDepth: nat, e: DirEntry, k: nat) {
    k < |cs| && !IsHidden(cs[k].name) && Reached(dirPath, rel + [cs[k].name], cs[k], maxDepth, e)
  }

  /** The first entry of a walk is its start, reached by the empty route. */
  lemma {:induction false} ReachedStart(dirPath: Path, rel: seq<Name>, node: Node, maxDepth: nat)
    requires |rel| <= maxDepth
    ensures Reached(dirPath, rel, node, maxDepth, DirEntry(dirPath + Normals(rel), |rel|, node))
  {
    var more: seq<Name> := [];
    assert rel + more == rel;
    assert ReachedBy(dirPath, rel, node, maxDepth, DirEntry(dirPath + Normals(rel), |rel|, node), more);
  }

  /** What is reached below an entry of a directory is reached below the directory. */
  lemma {:induction false} ReachedThroughChild(dirPath: Path, rel: seq<Name>, node: Node, maxDepth: nat, e: DirEntry, k: nat)
    requires node.Dir? && WellFormed(node)
    requires ReachedBelow(dirPath, rel, node.children, maxDepth, e, k)
    ensures Reached(dirPath, rel, node, maxDepth, e)
  {
    var cs := node.children;
    var n := cs[k].name;
    var more :| ReachedBy(dirPath, rel + [n], cs[k], maxDepth, e, more);
    var route := [n] + more;
    AppendCons(rel, n, more);
    FindChildDistinct(cs, k);
    assert route[1..] == more;
    assert Lookup(node, route) == Lookup(cs[k], more);
    VisibleCons(n, more);
    assert ReachedBy(dirPath, rel, node, maxDepth, e, route);
  }

  /** A visible name in front of a visible route. */
  lemma {:induction false} VisibleCons(n: Name, more: seq<Name>)
    requires !IsHidden(n) && Visible(more)
    ensures Visible([n] + more)
  {
    var route := [n] + more;
    forall j | 0 <= j < |route| ensures !IsHidden(route[j]) {
      if j > 0 { assert route[j] == more[j - 1]; }
    }
  }

  /** The tail of a visible route is visible. */
  lemma {:induction false} VisibleTail(more: seq<Name>)
    requires more != [] && Visible(more)
    ensures Visible(more[1..])
  {
    forall j | 0 <= j < |more[1..]| ensures !IsHidden(more[1..][j]) {
      assert more[1..][j] == more[j + 1];
    }
  }

  lemma {:induction false} AppendCons(rel: seq<Name>, n: Name, more: seq<Name>)
    ensures rel + [n] + more == rel + ([n] + more)
  {
  }

  /** Every entry of a walk is reached along a visible route. */
  lemma {:induction false} WalkFromSound(dirPath: Path, rel: seq<Name>, node: Node, fileName: Name, maxDepth: nat)
    requires WellFormed(node)
    ensures forall e :: e in WalkFrom(dirPath, rel, node, fileName, maxDepth) ==>
      !IsHidden(fileName) && Reached(dirPath, rel, node, maxDepth, e)
    decreases node
  {
    if |rel| <= maxDepth && !IsHidden(fileName) {
      var head := DirEntry(dirPath + Normals(rel), |rel|, node);
      ReachedStart(dirPath, rel, node, maxDepth);
      if node.Dir? {
        var below := WalkChildren(dirPath, rel, node.children, maxDepth);
        assert WalkFrom(dirPath, rel, node, fileName, maxDepth) == [head] + below;
        WalkChildrenSound(dirPath, rel, node.children, maxDepth);
        forall e | e in below ensures Reached(dirPath, rel, node, maxDepth, e) {
          var k: nat :| ReachedBelow(dirPath, rel, node.children, maxDepth, e, k);
          ReachedThroughChild(dirPath, rel, node, maxDepth, e, k);
        }
      } else {
        assert WalkFrom(dirPath, rel, node, fileName, maxDepth) == [head];
      }
    }
  }

  /** Every entry of the walk of a directory's entries is reached through one of them. */
  lemma {:induction false} WalkChildrenSound(dirPath: Path, rel: seq<Name>, cs: seq<Node>, maxDepth: nat)
    requires forall i :: 0 <= i < |cs| ==> WellFormed(cs[i])
    ensures forall e :: e in WalkChildren(dirPath, rel, cs, maxDepth) ==>
      exists k: nat :: ReachedBelow(dirPath, rel, cs, maxDepth, e, k)
    decreases cs
  {
    if cs != [] {
      var first := WalkFrom(dirPath, rel + [cs[0].name], cs[0], cs[0].name, maxDepth);
      var rest := WalkChildren(dirPath, rel, cs[1..], maxDepth);
      assert WalkChildren(dirPath, rel, cs, maxDepth) == first + rest;
      WalkFromSound(dirPath, rel + [cs[0].name], cs[0], cs[0].name, maxDepth);
      WalkChildrenSound(dirPath, rel, cs[1..], maxDepth);
      forall e | e in first + rest
        ensures exists k: nat :: ReachedBelow(dirPath, rel, cs, maxDepth, e, k)
      {
        if e in first {
          assert ReachedBelow(dirPath, rel, cs, maxDepth, e, 0);
        } else {
          var k: nat :| ReachedBelow(dirPath, rel, cs[1..], maxDepth, e, k);
          assert cs[1..][k] == cs[k + 1];
          assert ReachedBelow(dirPath, rel, cs, maxDepth, e, k + 1);
        }
      }
    }
  }

  /** Every node on a visible route within the depth bound is yielded by the walk. */
  lemma {:induction false} WalkFromComplete(dirPath: Path, rel: seq<Name>, node: Node, fileName: Name, maxDepth: nat,
                                            more: seq<Name>, target: Node)
    requires Lookup(node, more) == Some(target) && Visible(more)
    requires |rel| + |more| <= maxDepth && !IsHidden(fileName)
    ensures DirEntry(dirPath + Normals(rel + more), |rel| + |more|, target) in WalkFrom(dirPath, rel, node, fileName, maxDepth)
    decreases |more|, 0, 0
  {
    var head := DirEntry(dirPath + Normals(rel), |rel|, node);
    if more == [] {
      assert rel + more == rel;
      assert WalkFrom(dirPath, rel, node, fileName, maxDepth)[0] == head;
    } else {
      var i := FindChild(node.children, more[0]).value;
      var child := node.children[i];
      VisibleTail(more);
      WalkChildrenComplete(dirPath, rel, node.children, maxDepth, i, more[1..], target);
      AppendCons(rel, more[0], more[1..]);
      assert [more[0]] + more[1..] == more;
      assert WalkFrom(dirPath, rel, node, fileName, maxDepth) ==
        [head] + WalkChildren(dirPath, rel, node.children, maxDepth);
    }
  }

  /** Completeness for the walk of a directory's entries, through its `i`-th entry. */
  lemma {:induction false} WalkChildrenComplete(dirPath: Path, rel: seq<Name>, cs: seq<Node>, maxDepth: nat,
                                                i: nat, more: seq<Name>, target: Node)
    requires i < |cs| && Lookup(cs[i], more) == Some(target) && Visible(more)
    requires |rel| + 1 + |more| <= maxDepth && !IsHidden(cs[i].name)
    ensures DirEntry(dirPath + Normals(rel + [cs[i].name] + more), |rel| + 1 + |more|, target)
            in WalkChildren(dirPath, rel, cs, maxDepth)
    decreases |more|, 1, i
  {
    if i == 0 {
      WalkFromComplete(dirPath, rel + [cs[0].name], cs[0], cs[0].name, maxDepth, more, target);
    } else {
      assert cs[1..][i - 1] == cs[i];
      WalkChildrenComplete(dirPath, rel, cs[1..], maxDepth, i - 1, more, target);
    }
  }

  // ---------------------------------------------------------------------
  // Each path is yielded once
  // ---------------------------------------------------------------------

  /** No two entries of `es` share a path. */
  predicate DistinctPaths(es: seq<DirEntry>) {
    forall i, j :: 0 <= i < j < |es| ==> es[i].path != es[j].path
  }

  lemma {:induction false} DistinctConcat(a: seq<DirEntry>, b: seq<DirEntry>)
    requires DistinctPaths(a) && DistinctPaths(b)
    requires forall x, y :: x in a && y in b ==> x.path != y.path
    ensures DistinctPaths(a + b)
  {
    var ab := a + b;
    forall i, j | 0 <= i < j < |ab| ensures ab[i].path != ab[j].path {
      if j < |a| {
        assert ab[i] == a[i] && ab[j] == a[j];
      } else if i >= |a| {
        assert ab[i] == b[i - |a|] && ab[j] == b[j - |a|];
      } else {
        assert ab[i] in a && ab[j] in b;
      }
    }
  }

  /** What is reached through the entry `n` has `n` at the position after `dirPath` + `rel`. */
  lemma {:induction false} BelowEntryPosition(dirPath: Path, rel: seq<Name>, n: Name, node: Node, maxDepth: nat, e: DirEntry)
    requires Reached(dirPath, rel + [n], node, maxDepth, e)
    ensures |e.path| > |dirPath| + |rel| && e.path[|dirPath| + |rel|] == Normal(n)
  {
    var more :| ReachedBy(dirPath, rel + [n], node, maxDepth, e, more);
    var names := rel + [n] + more;
    assert names[|rel|] == n;
    assert e.path[|dirPath| + |rel|] == Normals(names)[|rel|];
  }

  /** A walk yields each path at most once. */
  lemma {:induction false} WalkFromDistinct(dirPath: Path, rel: seq<Name>, node: Node, fileName: Name, maxDepth: nat)
    requires WellFormed(node)
    ensures DistinctPaths(WalkFrom(dirPath, rel, node, fileName, maxDepth))
    decreases node
  {
    if |rel| <= maxDepth && !IsHidden(fileName) {
      var head := DirEntry(dirPath + Normals(rel), |rel|, node);
      if node.Dir? {
        var cs := node.children;
        var below := WalkChildren(dirPath, rel, cs, maxDepth);
        assert WalkFrom(dirPath, rel, node, fileName, maxDepth) == [head] + below;
        WalkChildrenDistinct(dirPath, rel, cs, maxDepth);
        WalkChildrenSound(dirPath, rel, cs, maxDepth);
        forall y | y in below ensures head.path != y.path {
          var k: nat :| ReachedBelow(dirPath, rel, cs, maxDepth, y, k);
          BelowEntryPosition(dirPath, rel, cs[k].name, cs[k], maxDepth, y);
        }
        DistinctConcat([head], below);
      } else {
        assert WalkFrom(dirPath, rel, node, fileName, maxDepth) == [head];
      }
    }
  }

  /** The walk of a directory's entries yields each path at most once. */
  lemma {:induction false} WalkChildrenDistinct(dirPath: Path, rel: seq<Name>, cs: seq<Node>, maxDepth: nat)
    requires forall i, j :: 0 <= i < j < |cs| ==> cs[i].name != cs[j].name
    requires forall i :: 0 <= i < |cs| ==> WellFormed(cs[i])
    ensures DistinctPaths(WalkChildren(dirPath, rel, cs, maxDepth))
    decreases cs
  {
    if cs != [] {
      var first := WalkFrom(dirPath, rel + [cs[0].name], cs[0], cs[0].name, maxDepth);
      var rest := WalkChildren(dirPath, rel, cs[1..], maxDepth);
      assert WalkChildren(dirPath, rel, cs, maxDepth) == first + rest;
      WalkFromDistinct(dirPath, rel + [cs[0].name], cs[0], cs[0].name, maxDepth);
      WalkChildrenDistinct(dirPath, rel, cs[1..], maxDepth);
      WalkFromSound(dirPath, rel + [cs[0].name], cs[0], cs[0].name, maxDepth);
      WalkChildrenSound(dirPath, rel, cs[1..], maxDepth);
      forall x, y | x in first && y in rest ensures x.path != y.path {
        BelowEntryPosition(dirPath, rel, cs[0].name, cs[0], maxDepth, x);
        var k: nat :| ReachedBelow(dirPath, rel, cs[1..], maxDepth, y, k);
        assert cs[1..][k] == cs[k + 1];
        BelowEntryPosition(dirPath, rel, cs[k + 1].name, cs[k + 1], maxDepth, y);
      }
      DistinctConcat(first, rest);
    }
  }

  // ---------------------------------------------------------------------
  // The walk and the inventory, stated on the tree
  // ---------------------------------------------------------------------

  /**
   * The route `names` leads from the root to `node`, within the depth bound,
   * with neither the root nor any entry on the way hidden.
   */
  ghost predicate Listed(dirPath: Path, root: Node, maxDepth: nat, names: seq<Name>, node: Node) {
    && !IsHidden(RootFileName(dirPath))
    && Visible(names)
    && |names| <= maxDepth
    && Lookup(root, names) == Some(node)
  }

  /** The node on a listed route counts: a text or CSV file whose lines can be counted. */
  ghost predicate Counted(dirPath: Path, root: Node, maxDepth: nat, header: bool, names: seq<Name>, node: Node) {
    && Listed(dirPath, root, maxDepth, names, node)
    && node.File?
    && IsTextOrCsvFile(dirPath + Normals(names))
    && CountLines(node.file, header).Ok?
  }

  /** Normal components after a common prefix determine the names. */
  lemma {:induction false} NormalsInjective(dirPath: Path, a: seq<Name>, b: seq<Name>)
    requires dirPath + Normals(a) == dirPath + Normals(b)
    ensures a == b
  {
    assert |a| == |b|;
    forall i | 0 <= i < |a| ensures a[i] == b[i] {
      assert (dirPath + Normals(a))[|dirPath| + i] == Normal(a[i]);
      assert (dirPath + Normals(b))[|dirPath| + i] == Normal(b[i]);
    }
  }

  /**
   * The filtered walk yields exactly the listed routes, each once, with the
   * path and the depth of the route.
   */
  lemma {:induction false} WalkListsExactly(dirPath: Path, root: Node, maxDepth: nat)
    requires WellFormed(root)
    ensures forall e :: e in Walk(dirPath, Some(root), maxDepth) ==>
      exists names :: e.path == dirPath + Normals(names) && e.depth == |names| && Listed(dirPath, root, maxDepth, names, e.node)
    ensures forall names, node :: Listed(dirPath, root, maxDepth, names, node) ==>
      DirEntry(dirPath + Normals(names), |names|, node) in Walk(dirPath, Some(root), maxDepth)
    ensures DistinctPaths(Walk(dirPath, Some(root), maxDepth))
  {
    var fileName := RootFileName(dirPath);
    var rel: seq<Name> := [];
    WalkFromSound(dirPath, rel, root, fileName, maxDepth);
    forall e | e in Walk(dirPath, Some(root), maxDepth)
      ensures exists names :: e.path == dirPath + Normals(names) && e.depth == |names| && Listed(dirPath, root, maxDepth, names, e.node)
    {
      var more :| ReachedBy(dirPath, rel, root, maxDepth, e, more);
      assert rel + more == more;
      assert Listed(dirPath, root, maxDepth, more, e.node);
    }
    forall names, node | Listed(dirPath, root, maxDepth, names, node)
      ensures DirEntry(dirPath + Normals(names), |names|, node) in Walk(dirPath, Some(root), maxDepth)
    {
      WalkFromComplete(dirPath, rel, root, fileName, maxDepth, names, node);
      assert rel + names == names;
    }
    WalkFromDistinct(dirPath, rel, root, fileName, maxDepth);
  }

  /** Distinct positions with distinct paths: a path determines its entry. */
  lemma {:induction false} DistinctPathsDetermine(es: seq<DirEntry>)
    requires DistinctPaths(es)
    ensures PathsDetermineEntries(es)
  {
    forall e1, e2 | e1 in es && e2 in es && e1.path == e2.path ensures e1 == e2 {
      var i :| 0 <= i < |es| && es[i] == e1;
      var j :| 0 <= j < |es| && es[j] == e2;
      assert !(i < j) && !(j < i);
    }
  }

  /**
   * The inventory holds, for every listed route to a text or CSV file whose
   * lines can be counted, that file's count under its path, and nothing else.
   */
  lemma {:induction false} InventoryExactly(dirPath: Path, root: Node, maxDepth: nat, header: bool)
    requires WellFormed(root)
    ensures var inventory := Collect(Walk(dirPath, Some(root), maxDepth), header);
      forall p :: p in inventory ==>
        exists names, node :: p == dirPath + Normals(names) && Counted(dirPath, root, maxDepth, header, names, node) &&
                              inventory[p] == CountLines(node.file, header).value
    ensures var inventory := Collect(Walk(dirPath, Some(root), maxDepth), header);
      forall names, node :: Listed(dirPath, root, maxDepth, names, node) ==>
        ((dirPath + Normals(names) in inventory) <==> Counted(dirPath, root, maxDepth, header, names, node))
    ensures var inventory := Collect(Walk(dirPath, Some(root), maxDepth), header);
      forall names, node :: Counted(dirPath, root, maxDepth, header, names, node) ==>
        inventory[dirPath + Normals(names)] == CountLines(node.file, header).value
  {
    var walk := Walk(dirPath, Some(root), maxDepth);
    var inventory := Collect(walk, header);
    WalkListsExactly(dirPath, root, maxDepth);
    CollectHolds(walk, header);
    DistinctPathsDetermine(walk);
    forall p: Path | p in inventory
      ensures exists names, node :: p == dirPath + Normals(names) && Counted(dirPath, root, maxDepth, header, names, node) &&
                                    inventory[p] == CountLines(node.file, header).value
    {
      assert Supplied(walk, header, p, inventory[p]);
      var e :| e in walk && e.path == p && Selected(e, header) && CountLines(e.node.file, header) == Ok(inventory[p]);
      var names :| e.path == dirPath + Normals(names) && e.depth == |names| && Listed(dirPath, root, maxDepth, names, e.node);
      assert Counted(dirPath, root, maxDepth, header, names, e.node);
    }
    forall names, node | Counted(dirPath, root, maxDepth, header, names, node)
      ensures dirPath + Normals(names) in inventory && inventory[dirPath + Normals(names)] == CountLines(node.file, header).value
    {
      var e := DirEntry(dirPath + Normals(names), |names|, node);
      assert e in walk && Selected(e, header);
      CollectValue(walk, header, e);
    }
    forall names, node | Listed(dirPath, root, maxDepth, names, node) && dirPath + Normals(names) in inventory
      ensures Counted(dirPath, root, maxDepth, header, names, node)
    {
      var p := dirPath + Normals(names);
      var names', node' :| p == dirPath + Normals(names') && Counted(dirPath, root, maxDepth, header, names', node') &&
                           inventory[p] == CountLines(node'.file, header).value;
      NormalsInjective(dirPath, names, names');
    }
  }

  /**
   * Every key is the start path followed by normal components, none of
   * them hidden, at most the depth bound of them; and the start path itself
   * is not hidden.
   */
  lemma {:induction false} InventoryKeysVisible(dirPath: Path, root: Node, maxDepth: nat, header: bool)
    requires WellFormed(root)
    ensures forall p: Path :: p in Collect(Walk(dirPath, Some(root), maxDepth), header) ==>
      && !IsHidden(RootFileName(dirPath))
      && |dirPath| <= |p| <= |dirPath| + maxDepth
      && p[..|dirPath|] == dirPath
      && (forall i :: |dirPath| <= i < |p| ==> p[i].Normal? && !IsHidden(p[i].name))
  {
    InventoryExactly(dirPath, root, maxDepth, header);
    var inventory := Collect(Walk(dirPath, Some(root), maxDepth), header);
    assert forall p :: p in inventory ==>
      exists names, node :: p == dirPath + Normals(names) && Counted(dirPath, root, maxDepth, header, names, node) &&
                            inventory[p] == CountLines(node.file, header).value;
    forall p: Path | p in inventory
      ensures |dirPath| <= |p| <= |dirPath| + maxDepth && p[..|dirPath|] == dirPath
      ensures forall i :: |dirPath| <= i < |p| ==> p[i].Normal? && !IsHidden(p[i].name)
    {
      var names, node :| p == dirPath + Normals(names) && Counted(dirPath, root, maxDepth, header, names, node) &&
                         inventory[p] == CountLines(node.file, header).value;
      forall i | |dirPath| <= i < |p| ensures p[i].Normal? && !IsHidden(p[i].name) {
        assert p[i] == Normal(names[i - |dirPath|]);
      }
    }
  }

  /** The order in which the entries are processed does not matter: any listing of the walk's entries gives the same map. */
  lemma {:induction false} AnyOrderGivesSameInventory(dirPath: Path, root: Node, maxDepth: nat, header: bool, order: seq<DirEntry>)
    requires WellFormed(root)
    requires forall e :: e in order <==> e in Walk(dirPath, Some(root), maxDepth)
    ensures Collect(order, header) == Collect(Walk(dirPath, Some(root), maxDepth), header)
  {
    var walk := Walk(dirPath, Some(root), maxDepth);
    WalkListsExactly(dirPath, root, maxDepth);
    DistinctPathsDetermine(walk);
    CollectOrderIndependent(walk, order, header);
  }

  /** A hidden start path prunes the whole walk: the inventory is empty. */
  lemma {:induction false} HiddenStartGivesEmptyInventory(dirPath: Path, root: Option<Node>, maxDepth: nat, header: bool)
    requires IsHidden(RootFileName(dirPath))
    ensures Collect(Walk(dirPath, root, maxDepth), header) == map[]
  {
  }

  /** A start path that cannot be read gives an empty inventory, not an error. */
  lemma {:induction false} UnreadableStartGivesEmptyInventory(dirPath: Path, maxDepth: nat, header: bool)
    ensures Collect(Walk(dirPath, None, maxDepth), header) == map[]
  {
  }

  /** The start path `.` names itself `.`, which is hidden, so walking the current directory finds nothing. */
  lemma {:induction false} CurrentDirectoryGivesEmptyInventory(root: Option<Node>, maxDepth: nat, header: bool)
    ensures Collect(Walk([CurDir], root, maxDepth), header) == map[]
  {
    assert RootFileName([CurDir]) == [Dot];
    HiddenStartGivesEmptyInventory([CurDir], root, maxDepth, header);
  }

  // ---------------------------------------------------------------------
  // The module's unit test of the classifier
  // ---------------------------------------------------------------------

  /** A file name `stem.ext` in ASCII has the extension `ext` when `ext` has no dot. */
  lemma {:induction false} AsciiExtension(p: Path, stem: string, ext: string)
    requires forall i :: 0 <= i < |stem| ==> stem[i] as int < 0x80
    requires forall i :: 0 <= i < |ext| ==> ext[i] as int < 0x80
    requires stem != [] && stem != "." && '.' !in ext
    requires FileName(p) == Some(Ascii(stem + "." + ext))
    ensures Extension(p) == Some(Ascii(ext))
  {
    AsciiConcat(stem, ".");
    AsciiConcat(stem + ".", ext);
    assert Ascii(".") == [Dot];
    AsciiWithout(ext, '.', Dot);
    var n := Ascii(stem) + [Dot] + Ascii(ext);
    assert n != [Dot, Dot] by {
      if |n| == 2 { assert Ascii(stem) == [n[0]]; assert stem == [stem[0]]; }
    }
    ExtensionAfterLastDot(p, Ascii(stem), Ascii(ext));
  }

  /** `test_is_text_or_csv_file`: `test.txt` qualifies. */
  lemma {:induction false} LowerTxtQualifies()
    ensures IsTextOrCsvFile([Normal(Ascii("test.txt"))])
  {
    assert "test.txt" == "test" + "." + "txt";
    AsciiExtension([Normal(Ascii("test.txt"))], "test", "txt");
  }

  /** `test_is_text_or_csv_file`: `test.TXT` qualifies, case being ignored. */
  lemma {:induction false} UpperTxtQualifies()
    ensures IsTextOrCsvFile([Normal(Ascii("test.TXT"))])
  {
    assert "test.TXT" == "test" + "." + "TXT";
    AsciiExtension([Normal(Ascii("test.TXT"))], "test", "TXT");
    UpperTxtMatches();
  }

  lemma {:induction false} UpperTxtMatches()
    ensures EqIgnoreAsciiCase(Ascii("TXT"), Ascii("txt"))
  {
    var upper, lower := Ascii("TXT"), Ascii("txt");
    assert forall i :: 0 <= i < 3 ==> AsciiLower(upper[i]) == AsciiLower(lower[i]);
  }

  /** `test_is_text_or_csv_file`: `test.csv` qualifies. */
  lemma {:induction false} CsvQualifies()
    ensures IsTextOrCsvFile([Normal(Ascii("test.csv"))])
  {
    assert "test.csv" == "test" + "." + "csv";
    AsciiExtension([Normal(Ascii("test.csv"))], "test", "csv");
  }

  /** `test_is_text_or_csv_file`: `test,xlsx` has no dot, hence no extension, and does not qualify. */
  lemma {:induction false} CommaNameDoesNotQualify()
    ensures !IsTextOrCsvFile([Normal(Ascii("test,xlsx"))])
  {
    AsciiWithout("test,xlsx", '.', Dot);
  }

  /** A name whose only dot is its first byte has no extension. */
  lemma {:induction false} LeadingDotNoExtension(p: Path, rest: string)
    requires forall i :: 0 <= i < |rest| ==> rest[i] as int < 0x80
    requires '.' !in rest && FileName(p) == Some(Ascii("." + rest))
    ensures Extension(p).None?
  {
    AsciiConcat(".", rest);
    assert Ascii(".") == [Dot];
    AsciiWithout(rest, '.', Dot);
    var n, tail := Ascii("." + rest), Ascii(rest);
    assert n == [Dot] + tail;
    forall j | 0 < j < |n| ensures n[j] != Dot {
      assert n[j] == tail[j - 1];
    }
  }

  /** `.env` has no extension: its only dot is its first byte. */
  lemma {:induction false} DotEnvHasNoExtension()
    ensures Extension([Normal(Ascii(".env"))]).None?
  {
    assert ".env" == "." + "env";
    LeadingDotNoExtension([Normal(Ascii(".env"))], "env");
  }

  /** `.txt` is a hidden name without an extension, so it does not qualify either. */
  lemma {:induction false} DotTxtDoesNotQualify()
    ensures !IsTextOrCsvFile([Normal(Ascii(".txt"))])
  {
    assert ".txt" == "." + "txt";
    LeadingDotNoExtension([Normal(Ascii(".txt"))], "txt");
  }
}
