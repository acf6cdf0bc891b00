/**
 * Unix paths as `std::path::Path` splits them into components, with the
 * accessors the inventory uses: `file_name`, `parent`, `extension`,
 * `Component::as_os_str`, and `PathBuf::push` of a relative name.
 */
module Paths {
  import opened Wrappers
  import opened Bytes

  /** An `OsStr`: arbitrary bytes, not necessarily UTF-8. */
  type Name = seq<byte>

  /** `std::path::Component` on Unix (there is no prefix component). */
  datatype Component = RootDir | CurDir | ParentDir | Normal(name: Name)

  /** A path, as the sequence of its components. */
  type Path = seq<Component>

  /** A name that can stand as one `Normal` component. */
  predicate WellFormedName(n: Name) {
    n != [] && Slash !in n && n != [Dot] && n != [Dot, Dot]
  }

  /** The shapes `Path::components` produces: `/` and `.` only in front. */
  predicate ValidPath(p: Path) {
    forall i :: 0 <= i < |p| ==>
      && (p[i] == RootDir ==> i == 0)
      && (p[i] == CurDir ==> i == 0)
      && (p[i].Normal? ==> WellFormedName(p[i].name))
  }

  /** `Component::as_os_str`. */
  function ComponentBytes(c: Component): Name {
    match c
    case RootDir => [Slash]
    case CurDir => [Dot]
    case ParentDir => [Dot, Dot]
    case Normal(n) => n
  }

  /** `Path::file_name`: the last component, when it is a normal one. */
  function FileName(p: Path): Option<Name> {
    if p != [] && p[|p| - 1].Normal? then Some(p[|p| - 1].name) else None
  }

  /** `Path::parent`: everything but the last component; none for `/` and the empty path. */
  function Parent(p: Path): Option<Path> {
    if p == [] || p[|p| - 1] == RootDir then None else Some(p[..|p| - 1])
  }

  /** One normal component per name. */
  function Normals(names: seq<Name>): (p: Path)
    ensures |p| == |names|
    ensures forall i :: 0 <= i < |names| ==> p[i] == Normal(names[i])
  {
    seq(|names|, i requires 0 <= i < |names| => Normal(names[i]))
  }

  /** The position of the last `b` in `n`. */
  function LastIndexOf(n: Name, b: byte): (r: Option<nat>)
    ensures r.None? <==> b !in n
    ensures r.Some? ==> r.value < |n| && n[r.value] == b && b !in n[r.value + 1..]
  {
    if n == [] then None
    else if n[|n| - 1] == b then Some(|n| - 1)
    else
      var r := LastIndexOf(n[..|n| - 1], b);
      assert n == n[..|n| - 1] + [n[|n| - 1]];
      r
  }

  /**
   * `Path::extension` (through `rsplit_file_at_dot`): the bytes after the
   * last dot of the file name; none without a file name, for `..`, and when
   * the only dot is the first byte (`.env`).
   */
  function Extension(p: Path): (r: Option<Name>)
    ensures FileName(p).None? ==> r.None?
    ensures FileName(p).Some? ==>
      var n := FileName(p).value;
      && (r.None? <==> n == [Dot, Dot] || forall j :: 0 < j < |n| ==> n[j] != Dot)
      && (r.Some? ==>
            var k := |n| - |r.value| - 1;
            0 < k < |n| && n == n[..k] + [Dot] + r.value && Dot !in r.value)
  {
    match FileName(p)
    case None => None
    case Some(n) => NameExtension(n)
  }

  /** The extension of a file name. */
  function NameExtension(n: Name): (r: Option<Name>)
    ensures r.None? <==> n == [Dot, Dot] || forall j :: 0 < j < |n| ==> n[j] != Dot
    ensures r.Some? ==>
      var k := |n| - |r.value| - 1;
      0 < k < |n| && n == n[..k] + [Dot] + r.value && Dot !in r.value
  {
    if n == [Dot, Dot] then None
    else
      match LastIndexOf(n, Dot)
      case None => None
      case Some(i) =>
        LastDotAtStart(n, i);
        if i == 0 then None
        else
          SplitAtDot(n, i);
          Some(n[i + 1..])
  }

  /** The last dot is the first byte exactly when no other byte is a dot. */
  lemma {:induction false} LastDotAtStart(n: Name, i: nat)
    requires i < |n| && n[i] == Dot && Dot !in n[i + 1..]
    ensures (forall j :: 0 < j < |n| ==> n[j] != Dot) <==> i == 0
  {
    if i == 0 {
      forall j | 0 < j < |n| ensures n[j] != Dot {
        assert n[j] == n[i + 1..][j - 1];
      }
    }
  }

  lemma {:induction false} SplitAtDot(n: Name, i: nat)
    requires i < |n| && n[i] == Dot
    ensures n == n[..i] + [Dot] + n[i + 1..]
  {
  }

  /** The components separated by `/`, with no leading `/`. */
  function JoinComponents(p: Path): Name
    decreases |p|
  {
    if p == [] then []
    else if |p| == 1 then ComponentBytes(p[0])
    else JoinComponents(p[..|p| - 1]) + [Slash] + ComponentBytes(p[|p| - 1])
  }

  /** The path written out with `/` as separator (`Path::as_os_str` of a path in canonical form). */
  function Render(p: Path): Name {
    if p != [] && p[0] == RootDir then [Slash] + JoinComponents(p[1..]) else JoinComponents(p)
  }

  /**
   * `PathBuf::push` of a relative name onto a rendered path: a separator is
   * added unless the path is empty or already ends in one.
   */
  function Push(base: Name, name: Name): Name {
    if base == [] then name
    else if base[|base| - 1] == Slash then base + name
    else base + [Slash] + name
  }

  /** A rendered path other than `/` ends in a byte other than the separator. */
  lemma {:induction false} RenderEnd(p: Path)
    requires ValidPath(p) && p != [] && p != [RootDir]
    ensures var r := Render(p); r != [] && r[|r| - 1] != Slash
  {
    var c := p[|p| - 1];
    var last := ComponentBytes(c);
    assert last != [] && last[|last| - 1] != Slash by {
      if c.Normal? {
        assert WellFormedName(c.name);
        assert c.name[|c.name| - 1] in c.name;
      }
    }
    var q := if p[0] == RootDir then p[1..] else p;
    assert q != [] && q[|q| - 1] == c;
    var j := JoinComponents(q);
    assert |j| >= |last| && j[|j| - |last|..] == last;
    assert j[|j| - 1] == last[|last| - 1];
  }

  /** Joining one more component adds a separator and its bytes. */
  lemma {:induction false} JoinAppend(t: Path, n: Name)
    requires t != []
    ensures JoinComponents(t + [Normal(n)]) == JoinComponents(t) + [Slash] + n
  {
    var q := t + [Normal(n)];
    assert q[..|q| - 1] == t;
  }

  /** Rendering a path other than `/` extended by a name adds a separator and the name. */
  lemma {:induction false} RenderAppend(p: Path, n: Name)
    requires p != [] && p != [RootDir]
    ensures Render(p + [Normal(n)]) == Render(p) + [Slash] + n
  {
    var q := p + [Normal(n)];
    assert q[0] == p[0];
    if p[0] == RootDir {
      assert q[1..] == p[1..] + [Normal(n)];
      JoinAppend(p[1..], n);
    } else {
      JoinAppend(p, n);
    }
  }

  /** Pushing a name onto a rendered path renders the extended path. */
  lemma {:induction false} RenderPush(p: Path, n: Name)
    requires ValidPath(p) && p != [] && WellFormedName(n)
    ensures Render(p + [Normal(n)]) == Push(Render(p), n)
  {
    if p == [RootDir] {
      assert (p + [Normal(n)])[1..] == [Normal(n)];
    } else {
      RenderEnd(p);
      RenderAppend(p, n);
    }
  }
}
