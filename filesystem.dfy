/**
 * The file system as the disk manager sees it, and the GLib path helpers it
 * calls: `g_build_path`, `g_path_get_basename` and `g_canonicalize_filename`.
 * A `GFile` made from a path names the canonical absolute form of that path,
 * a relative path being taken from the working directory.
 */
module FileSystem {
  import opened Wrappers
  import opened Strings

  /** What a path names. */
  datatype Node =
    | File(lines: seq<string>)   // a readable file, as `g_data_input_stream_read_line` yields its lines
    | Unreadable                 // exists, but `g_file_read` fails on it
    | Dir(entries: seq<string>)  // a directory, its entries in `g_dir_read_name` order

  /** The nodes, keyed by canonical absolute path, and the working directory. */
  datatype Tree = Tree(cwd: string, nodes: map<string, Node>)

  // ---------------------------------------------------------------------
  // g_canonicalize_filename (relative to "/")

  /** The components of a path: empty ones and "." dropped, ".." climbing one level. */
  function Resolve(stack: seq<string>, comps: seq<string>): seq<string>
    decreases |comps|
  {
    if comps == [] then stack
    else if comps[0] == "" || comps[0] == "." then Resolve(stack, comps[1..])
    else if comps[0] == ".." then Resolve(if stack == [] then [] else stack[..|stack| - 1], comps[1..])
    else Resolve(stack + [comps[0]], comps[1..])
  }

  /** An absolute path written from its components. */
  function PathOf(comps: seq<string>): string
  {
    "/" + Join(comps, '/')
  }

  /** `g_canonicalize_filename(p, "/")`. */
  function Canonicalize(p: string): string
  {
    PathOf(Resolve([], Pieces(p, '/')))
  }

  /** A component that canonicalisation keeps as it is. */
  predicate PlainName(c: string)
  {
    c != "" && c != "." && c != ".." && '/' !in c
  }

  lemma {:induction false} ResolvePlain(stack: seq<string>, comps: seq<string>)
    requires forall i :: 0 <= i < |comps| ==> PlainName(comps[i])
    ensures Resolve(stack, comps) == stack + comps
    decreases |comps|
  {
    if comps != [] {
      ResolvePlain(stack + [comps[0]], comps[1..]);
      assert stack + [comps[0]] + comps[1..] == stack + comps;
    }
  }

  lemma {:induction false} PiecesOfJoin(comps: seq<string>)
    requires comps != []
    requires forall i :: 0 <= i < |comps| ==> '/' !in comps[i]
    ensures Pieces(Join(comps, '/'), '/') == comps
  {
    if |comps| == 1 {
      PiecesWithout(comps[0], '/');
    } else {
      PiecesOfJoin(comps[1..]);
      PiecesWithout(comps[0], '/');
      PiecesAppend(comps[0], '/', Join(comps[1..], '/'));
      assert [comps[0]] + comps[1..] == comps;
    }
  }

  /** A path made of plain components is already canonical. */
  lemma CanonicalPathOf(comps: seq<string>)
    requires forall i :: 0 <= i < |comps| ==> PlainName(comps[i])
    ensures Canonicalize(PathOf(comps)) == PathOf(comps)
  {
    if comps == [] {
      assert PathOf(comps) == [] + ['/'] + [];
      PiecesAppend([], '/', []);
      var ps := Pieces(PathOf(comps), '/');
      assert ps == [""] + [""];
      assert ps[0] == "" && ps[1..] == [""];
      assert Resolve([], ps) == Resolve([], [""]);
      assert [""][0] == "" && [""][1..] == [];
      assert Resolve([], [""]) == Resolve([], []);
    } else {
      PiecesOfJoin(comps);
      assert PathOf(comps) == [] + ['/'] + Join(comps, '/');
      PiecesAppend([], '/', Join(comps, '/'));
      var ps := Pieces(PathOf(comps), '/');
      assert ps == [""] + comps;
      assert ps[0] == "" && ps[1..] == comps;
      ResolvePlain([], comps);
      assert [] + comps == comps;
      assert Resolve([], ps) == comps;
    }
  }

  /** The canonical absolute path a `GFile` for `p` stands for. */
  function Absolute(fs: Tree, p: string): string
  {
    if p != [] && p[0] == '/' then Canonicalize(p) else Canonicalize(fs.cwd + "/" + p)
  }

  // ---------------------------------------------------------------------
  // Queries

  /** `g_file_query_exists`. */
  predicate Exists(fs: Tree, p: string)
  {
    Absolute(fs, p) in fs.nodes
  }

  /** `g_file_read` and then every line: None when the read fails (a directory, say). */
  function ReadLines(fs: Tree, p: string): (r: Option<seq<string>>)
    ensures r.Some? <==> Exists(fs, p) && fs.nodes[Absolute(fs, p)].File?
  {
    var a := Absolute(fs, p);
    if a in fs.nodes && fs.nodes[a].File? then Some(fs.nodes[a].lines) else None
  }

  /** `g_dir_open` and then every `g_dir_read_name`: None when `p` is no directory. */
  function ListDir(fs: Tree, p: string): (r: Option<seq<string>>)
    ensures r.Some? <==> Exists(fs, p) && fs.nodes[Absolute(fs, p)].Dir?
  {
    var a := Absolute(fs, p);
    if a in fs.nodes && fs.nodes[a].Dir? then Some(fs.nodes[a].entries) else None
  }

  // ---------------------------------------------------------------------
  // g_build_path

  /** Steps forward from `i` over copies of `sep`: where the leading separators end. */
  function LeadEnd(e: string, sep: string, i: nat): (n: nat)
    requires sep != [] && i <= |e|
    ensures i <= n <= |e|
    decreases |e| - i
  {
    if i + |sep| <= |e| && e[i..i + |sep|] == sep then LeadEnd(e, sep, i + |sep|) else i
  }

  /** Steps back from `j` over copies of `sep`, not going below `lo`: where the core ends. */
  function CoreStop(e: string, sep: string, lo: nat, j: nat): (n: nat)
    requires sep != [] && lo <= j <= |e|
    ensures lo <= n <= j
    decreases j
  {
    if j >= lo + |sep| && e[j - |sep|..j] == sep then CoreStop(e, sep, lo, j - |sep|) else j
  }

  /** The length of the leading separators of an element. */
  function LeadLen(e: string, sep: string): (n: nat)
    requires sep != []
    ensures n <= |e|
  {
    LeadEnd(e, sep, 0)
  }

  /** Where the core of an element ends: its trailing separators start there. */
  function CoreEnd(e: string, sep: string): (n: nat)
    requires sep != []
    ensures LeadLen(e, sep) <= n <= |e|
  {
    CoreStop(e, sep, LeadLen(e, sep), |e|)
  }

  /** An element with its leading and trailing separators removed. */
  function Core(e: string, sep: string): string
    requires sep != []
  {
    e[LeadLen(e, sep)..CoreEnd(e, sep)]
  }

  /** Steps back from `pos` over copies of `sep`, not going below the element's start. */
  function TrailStart(e: string, sep: string, pos: nat): (n: nat)
    requires sep != [] && pos <= |e|
    ensures n <= pos
  {
    if pos >= |sep| && e[pos - |sep|..pos] == sep then TrailStart(e, sep, pos - |sep|) else pos
  }

  /** The non-empty cores of the elements, in order. */
  function Cores(elems: seq<string>, sep: string): seq<string>
    requires sep != []
  {
    if elems == [] then []
    else (if Core(elems[0], sep) == [] then [] else [Core(elems[0], sep)]) + Cores(elems[1..], sep)
  }

  /** The parts with `sep` between each two. */
  function JoinWith(parts: seq<string>, sep: string): string
  {
    if parts == [] then []
    else if |parts| == 1 then parts[0]
    else parts[0] + sep + JoinWith(parts[1..], sep)
  }

  function Concat(parts: seq<string>): string
  {
    if parts == [] then [] else parts[0] + Concat(parts[1..])
  }

  /**
   * `g_build_path(sep, elems...)`: the non-empty cores joined by `sep`,
   * after the leading separators of the first element and followed by the
   * trailing separators of the last; a lone element whose trailing
   * separators reach back into its leading ones is returned as it is.
   * Unlike `g_build_path`, an empty first or last element is not skipped
   * when the outer separators are taken.
   */
  function BuildPath(sep: string, elems: seq<string>): string
  {
    if sep == [] then Concat(elems)
    else if elems == [] then []
    else
      var first, last := elems[0], elems[|elems| - 1];
      if |elems| == 1 && TrailStart(first, sep, CoreEnd(first, sep)) <= LeadLen(first, sep) then first
      else first[..LeadLen(first, sep)] + JoinWith(Cores(elems, sep), sep) + last[TrailStart(last, sep, CoreEnd(last, sep))..]
  }

  /** An element with no separator at either end. */
  predicate Clean(e: string)
  {
    e != [] && e[0] != '/' && e[|e| - 1] != '/'
  }

  lemma CleanElement(e: string)
    requires Clean(e)
    ensures LeadLen(e, "/") == 0 && CoreEnd(e, "/") == |e| && Core(e, "/") == e
    ensures TrailStart(e, "/", |e|) == |e|
  {
    assert e[0..1] != "/";
    assert e[|e| - 1..|e|] != "/";
  }

  lemma CoresCons(e: string, rest: seq<string>)
    requires Clean(e)
    ensures Cores([e] + rest, "/") == [e] + Cores(rest, "/")
  {
    CleanElement(e);
    assert ([e] + rest)[1..] == rest;
  }

  lemma {:induction false} CoresOfClean(names: seq<string>)
    requires forall i :: 0 <= i < |names| ==> Clean(names[i])
    ensures Cores(names, "/") == names
  {
    if names != [] {
      CoresOfClean(names[1..]);
      assert names == [names[0]] + names[1..];
      CoresCons(names[0], names[1..]);
    }
  }

  /** Everything `LeadEnd` steps over is a slash. */
  lemma {:induction false} LeadSlashes(e: string, i: nat)
    requires i <= |e|
    ensures forall j :: i <= j < LeadEnd(e, "/", i) ==> e[j] == '/'
    decreases |e| - i
  {
    if i + 1 <= |e| && e[i..i + 1] == "/" {
      assert e[i] == '/';
      LeadSlashes(e, i + 1);
    }
  }

  /** A root that does not end in "/" splits into its leading slashes and a non-empty core. */
  lemma RootCore(root: string)
    requires root != [] && root[|root| - 1] != '/'
    ensures LeadLen(root, "/") < |root| && CoreEnd(root, "/") == |root|
    ensures Core(root, "/") != [] && root[..LeadLen(root, "/")] + Core(root, "/") == root
  {
    var k := LeadLen(root, "/");
    LeadSlashes(root, 0);
    assert root[|root| - 1..|root|] != "/";
    assert root[..k] + root[k..] == root;
  }

  /**
   * Joining clean elements under a root that does not end in "/" puts one
   * "/" between each two: `g_build_path("/", root, names...)` is
   * root + "/" + the names joined by "/".
   */
  lemma BuildUnderRoot(root: string, names: seq<string>)
    requires root != [] && root[|root| - 1] != '/'
    requires names != []
    requires forall i :: 0 <= i < |names| ==> Clean(names[i])
    ensures BuildPath("/", [root] + names) == root + "/" + JoinWith(names, "/")
  {
    RootCore(root);
    var k, s := LeadLen(root, "/"), Core(root, "/");
    BuildUnderRootParts(root, names);
    Regroup(root[..k], s, "/", JoinWith(names, "/"));
  }

  /** `BuildUnderRoot` before the root's leading part and core are put back together. */
  lemma BuildUnderRootParts(root: string, names: seq<string>)
    requires root != [] && root[|root| - 1] != '/'
    requires names != []
    requires forall i :: 0 <= i < |names| ==> Clean(names[i])
    ensures BuildPath("/", [root] + names) ==
      root[..LeadLen(root, "/")] + (Core(root, "/") + "/" + JoinWith(names, "/")) + []
  {
    var elems := [root] + names;
    var last := names[|names| - 1];
    RootCore(root);
    CoresUnderRoot(root, names);
    JoinCons(Core(root, "/"), names, "/");
    CleanElement(last);
    BuildPathMany("/", elems, root, last);
  }

  /** `g_build_path` on two or more elements: the first's leading separators, the joined cores, the last's trailing ones. */
  lemma BuildPathMany(sep: string, elems: seq<string>, first: string, last: string)
    requires sep != [] && |elems| >= 2 && elems[0] == first && elems[|elems| - 1] == last
    ensures BuildPath(sep, elems) ==
      first[..LeadLen(first, sep)] + JoinWith(Cores(elems, sep), sep) + last[TrailStart(last, sep, CoreEnd(last, sep))..]
  {
  }

  lemma Regroup(a: string, b: string, c: string, d: string)
    ensures a + (b + c + d) + [] == (a + b) + c + d
  {
  }

  lemma CoresUnderRoot(root: string, names: seq<string>)
    requires Core(root, "/") != []
    requires forall i :: 0 <= i < |names| ==> Clean(names[i])
    ensures Cores([root] + names, "/") == [Core(root, "/")] + names
  {
    var elems := [root] + names;
    assert elems[0] == root && elems[1..] == names;
    CoresOfClean(names);
  }

  lemma JoinCons(s: string, names: seq<string>, sep: string)
    requires names != []
    ensures JoinWith([s] + names, sep) == s + sep + JoinWith(names, sep)
  {
    assert ([s] + names)[1..] == names;
  }

  /** A device path under /dev of a plain name is already canonical. */
  lemma DevCanonical(name: string)
    requires PlainName(name)
    ensures Canonicalize("/dev/" + name) == "/dev/" + name
  {
    var comps := ["dev", name];
    assert comps[1..] == [name];
    assert Join(comps, '/') == "dev" + ['/'] + name;
    assert PathOf(comps) == "/dev/" + name;
    CanonicalPathOf(comps);
  }

  /** `g_build_path("/", "/dev/", name)` is "/dev/" + name for a clean name. */
  lemma DevPath(name: string)
    requires Clean(name)
    ensures BuildPath("/", ["/dev/", name]) == "/dev/" + name
  {
    var d := "/dev/";
    assert d[0..1] == "/" && d[1..2] == "d";
    assert LeadEnd(d, "/", 1) == 1;
    assert LeadLen(d, "/") == 1;
    assert d[4..5] == "/" && d[3..4] == "v";
    assert CoreStop(d, "/", 1, 4) == 4;
    assert CoreEnd(d, "/") == 4;
    assert d[1..4] == "dev";
    assert Core(d, "/") == "dev";
    CleanElement(name);
    CoresCons(name, []);
    assert [name] + [] == [name];
    var elems := [d, name];
    assert elems[0] == d && elems[1..] == [name] && elems[|elems| - 1] == name;
    assert Cores(elems, "/") == ["dev"] + [name];
    var cs := ["dev", name];
    assert cs[1..] == [name];
    assert JoinWith(cs, "/") == "dev" + "/" + name;
    assert d[..1] == "/";
  }

  // ---------------------------------------------------------------------
  // g_path_get_basename

  /** `p` without its trailing slashes. */
  function TrimSlashes(p: string): (r: string)
    ensures |r| <= |p| && r == p[..|r|]
    ensures r != [] ==> r[|r| - 1] != '/'
    ensures forall i :: |r| <= i < |p| ==> p[i] == '/'
  {
    if p != [] && p[|p| - 1] == '/' then TrimSlashes(p[..|p| - 1]) else p
  }

  /** The part of `q` after its last slash. */
  function AfterLastSlash(q: string): (r: string)
    ensures '/' !in r
    ensures |r| <= |q| && r == q[|q| - |r|..]
    ensures |r| < |q| ==> q[|q| - |r| - 1] == '/'
  {
    if q == [] || q[|q| - 1] == '/' then [] else AfterLastSlash(q[..|q| - 1]) + [q[|q| - 1]]
  }

  /**
   * `g_path_get_basename`: "." for "", "/" for a path of slashes only,
   * otherwise the last component without trailing slashes.
   */
  function Basename(p: string): (r: string)
    ensures p == [] ==> r == "."
    ensures p != [] && TrimSlashes(p) == [] ==> r == "/"
    ensures TrimSlashes(p) != [] ==> r != [] && '/' !in r
  {
    if p == [] then "."
    else
      var q := TrimSlashes(p);
      if q == [] then "/" else AfterLastSlash(q)
  }

  /** The basename of "/dev/" + name is the name itself. */
  lemma BasenameOfDevPath(name: string)
    requires name != [] && '/' !in name
    ensures Basename("/dev/" + name) == name
  {
    var p := "/dev/" + name;
    assert p[|p| - 1] == name[|name| - 1] != '/';
    assert TrimSlashes(p) == p;
    assert "/dev" + "/" + name == p;
    AfterLastSlashOf("/dev", name);
  }

  /** After the last '/' of `dir + "/" + name`, for a name without '/', comes exactly the name. */
  lemma {:induction false} AfterLastSlashOf(dir: string, name: string)
    requires '/' !in name
    ensures AfterLastSlash(dir + "/" + name) == name
    decreases |name|
  {
    var q := dir + "/" + name;
    if name == [] {
      assert q[|q| - 1] == '/';
    } else {
      var n' := name[..|name| - 1];
      forall i | 0 <= i < |n'| ensures n'[i] != '/' { assert n'[i] == name[i]; }
      AfterLastSlashOf(dir, n');
      assert q[..|q| - 1] == dir + "/" + n';
      assert q[|q| - 1] == name[|name| - 1];
      AfterLastSlashStep(q);
    }
  }

  /** A path not ending in '/': its last character belongs to the last component. */
  lemma AfterLastSlashStep(q: string)
    requires q != [] && q[|q| - 1] != '/'
    ensures AfterLastSlash(q) == AfterLastSlash(q[..|q| - 1]) + [q[|q| - 1]]
  {
  }
}
