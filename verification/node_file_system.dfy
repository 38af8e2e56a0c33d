/** The node file system of other-topics/node-file-system.py.

    Every entry is a `Node` with a directory flag, a content string and a
    `defaultdict(Node)` of children. Reading a missing key of a defaultdict
    inserts a fresh `Node()`, which is not a directory; `in` and `.get` do not
    insert. Operations are functions from the old file system to the new one
    or to the value returned; the queries return values only, so they leave
    the tree as it was. */
module NodeFileSystem {
  import opened Wrappers
  import opened AssocLists
  import opened Paths
  import Seqs

  datatype Node = Node(isDir: bool, content: string, kids: Assoc<Node>)

  /** `Node()`: a non-directory with empty content and no children. */
  function NewNode(): Node {
    Node(false, "", [])
  }

  datatype FileSystem = FileSystem(root: Node)

  /** `FileSystem()`: the root is `Node(is_directory=True)`. */
  function Init(): FileSystem {
    FileSystem(Node(true, "", []))
  }

  /** Following names with `in` and `.get`: `None` at the first missing one. */
  function Get(n: Node, names: seq<string>): Option<Node>
    decreases |names|
  {
    if |names| == 0 then Some(n)
    else if Has(n.kids, names[0]) then Get(Find(n.kids, names[0]), names[1..])
    else None
  }

  /** `_find_node(path)`: empty pieces are skipped, so `''` and `'/'` name the root. */
  function FindNode(fs: FileSystem, path: string): Option<Node> {
    Get(fs.root, NonEmpty(Split(path)))
  }

  /** What a creating walk does to the node it ends at. */
  datatype Leaf = SetDir | AppendContent(text: string)

  function Apply(n: Node, leaf: Leaf): Node {
    match leaf
    case SetDir => n.(isDir := true)
    case AppendContent(c) => n.(isDir := false, content := n.content + c)
  }

  /** Following names with `children[part]`, which inserts a `Node()` for a
      missing one, and then acting on the node reached. */
  function Touch(n: Node, names: seq<string>, leaf: Leaf): Node
    decreases |names|
  {
    if |names| == 0 then Apply(n, leaf)
    else
      var child := if Has(n.kids, names[0]) then Find(n.kids, names[0]) else NewNode();
      n.(kids := Put(n.kids, names[0], Touch(child, names[1..], leaf)))
  }

  /** `mkdir(path)`: only the last node becomes a directory. */
  function Mkdir(fs: FileSystem, path: string): FileSystem {
    FileSystem(Touch(fs.root, NonEmpty(Split(path)), SetDir))
  }

  /** The names `add_content_to_file` follows: the non-empty pieces before
      the last, then the last piece (`parts.pop()`) even when it is empty. */
  function FileWalk(path: string): seq<string> {
    var parts := Split(path);
    NonEmpty(parts[..|parts| - 1]) + [parts[|parts| - 1]]
  }

  /** `add_content_to_file(path, content)`. */
  function AddContent(fs: FileSystem, path: string, content: string): FileSystem {
    FileSystem(Touch(fs.root, FileWalk(path), AppendContent(content)))
  }

  /** `_check_size(node)`: a non-directory counts its content, a directory the
      sizes of its children. */
  function Size(n: Node): nat
    decreases n, 1
  {
    if !n.isDir then |n.content| else KidsSize(n, 0)
  }

  /** The sizes of the children of `n` from position `i` on, added up. */
  function KidsSize(n: Node, i: nat): nat
    requires i <= |n.kids|
    decreases n, 0, |n.kids| - i
  {
    if i == |n.kids| then 0 else Size(n.kids[i].1) + KidsSize(n, i + 1)
  }

  /** The sizes of the children of `n`, in order. */
  function ChildSizes(n: Node): (r: seq<int>)
    ensures |r| == |n.kids|
  {
    seq(|n.kids|, i requires 0 <= i < |n.kids| => Size(n.kids[i].1))
  }

  /** `get_size(path)`: -1 for a missing path, the content length of a file,
      and the total of the children's sizes for a directory. */
  function GetSize(fs: FileSystem, path: string): (r: int)
    ensures r == -1 <==> FindNode(fs, path).None?
    ensures forall n :: FindNode(fs, path) == Some(n) && !n.isDir ==> r == |n.content|
    ensures forall n :: FindNode(fs, path) == Some(n) && n.isDir ==> r == Seqs.Sum(ChildSizes(n))
  {
    match FindNode(fs, path)
    case None => -1
    case Some(n) =>
      KidsSizeIsSum(n, 0);
      Size(n)
  }

  /** The loop `total_size += ...` adds up the children's sizes. */
  lemma {:induction false} KidsSizeIsSum(n: Node, i: nat)
    requires i <= |n.kids|
    ensures KidsSize(n, i) == Seqs.Sum(ChildSizes(n)[i..])
    decreases |n.kids| - i
  {
    if i < |n.kids| {
      KidsSizeIsSum(n, i + 1);
      Seqs.SumFront(ChildSizes(n)[i..]);
      assert ChildSizes(n)[i..][1..] == ChildSizes(n)[i + 1..];
    }
  }

  /** What `ls` hands back: a string, or the directory's `keys()` view. */
  datatype Listing = Text(text: string) | Names(names: seq<string>)

  const PathNotFound: string := "Error: Path not found"

  /** `ls(path)`. */
  function Ls(fs: FileSystem, path: string): (r: Listing)
    ensures FindNode(fs, path).None? ==> r == Text(PathNotFound)
    ensures forall n :: FindNode(fs, path) == Some(n) && !n.isDir ==> r == Text(LastPart(path))
    ensures forall n :: FindNode(fs, path) == Some(n) && n.isDir ==>
      r.Names? && |r.names| == |n.kids| &&
      (forall i :: 0 <= i < |n.kids| ==> r.names[i] == n.kids[i].0) &&
      (forall k :: k in r.names <==> Has(n.kids, k))
  {
    match FindNode(fs, path)
    case None => Text(PathNotFound)
    case Some(n) =>
      if !n.isDir then Text(LastPart(path))
      else
        assert forall k :: k in Keys(n.kids) <==> Has(n.kids, k) by {
          forall k ensures k in Keys(n.kids) <==> Has(n.kids, k) { HasIffInKeys(n.kids, k); }
        }
        Names(Keys(n.kids))
  }

  const NotAFile: string := "Error; Not a file or path not found."

  /** `read_content_from_file(path)`. */
  function ReadContent(fs: FileSystem, path: string): string {
    match FindNode(fs, path)
    case Some(n) => if n.isDir then NotAFile else n.content
    case None => NotAFile
  }

  /** The content a path holds before an append: the node's content, or `''`
      when there is no node yet. */
  function Prior(fs: FileSystem, path: string): string {
    match FindNode(fs, path)
    case Some(n) => n.content
    case None => ""
  }

  // ---------------------------------------------------------------------------
  // Walks

  /** A walk over `a + b` is a walk over `a` and then over `b`; a walk that
      stops at a missing name stops the whole walk. */
  lemma {:induction false} GetAppend(n: Node, a: seq<string>, b: seq<string>)
    ensures Get(n, a + b) == if Get(n, a).Some? then Get(Get(n, a).value, b) else None
    decreases |a|
  {
    if |a| > 0 {
      assert (a + b)[0] == a[0];
      assert (a + b)[1..] == a[1..] + b;
      if Has(n.kids, a[0]) {
        GetAppend(Find(n.kids, a[0]), a[1..], b);
      }
    } else {
      assert a + b == b;
    }
  }

  /** `''` and `'/'` both name the root. */
  lemma FindRoot(fs: FileSystem)
    ensures FindNode(fs, "") == Some(fs.root)
    ensures FindNode(fs, "/") == Some(fs.root)
  {
    SplitJoin(["", ""]);
    assert Join(["", ""]) == "/";
    assert NonEmpty(["", ""]) == [];
  }

  // ---------------------------------------------------------------------------
  // The creating walk

  /** After a creating walk, its names lead to the node that was there (a
      `Node()` where there was none), acted on. */
  lemma {:induction false} TouchReaches(n: Node, names: seq<string>, leaf: Leaf)
    ensures Get(Touch(n, names, leaf), names) == Some(Apply(Get(n, names).GetOr(NewNode()), leaf))
    decreases |names|
  {
    if |names| > 0 {
      var child := if Has(n.kids, names[0]) then Find(n.kids, names[0]) else NewNode();
      TouchReaches(child, names[1..], leaf);
    }
  }

  /** Every node a creating walk passes through keeps its directory flag and
      content; one the walk had to insert is a `Node()`, so not a directory. */
  lemma {:induction false} TouchKeepsAncestors(n: Node, names: seq<string>, leaf: Leaf, i: nat)
    requires i < |names|
    ensures Get(Touch(n, names, leaf), names[..i]).Some?
    ensures Get(Touch(n, names, leaf), names[..i]).value.isDir == Get(n, names[..i]).GetOr(NewNode()).isDir
    ensures Get(Touch(n, names, leaf), names[..i]).value.content == Get(n, names[..i]).GetOr(NewNode()).content
    decreases i
  {
    if i > 0 {
      var child := if Has(n.kids, names[0]) then Find(n.kids, names[0]) else NewNode();
      TouchKeepsAncestors(child, names[1..], leaf, i - 1);
      TouchStep(n, names, leaf, i);
    }
  }

  /** One step of a creating walk: a prefix of its names, less the first,
      is followed from the child it created or found. */
  lemma TouchStep(n: Node, names: seq<string>, leaf: Leaf, i: nat)
    requires 0 < i <= |names|
    ensures var child := if Has(n.kids, names[0]) then Find(n.kids, names[0]) else NewNode();
      && Get(Touch(n, names, leaf), names[..i]) == Get(Touch(child, names[1..], leaf), names[1..][..i - 1])
      && Get(n, names[..i]).GetOr(NewNode()) == Get(child, names[1..][..i - 1]).GetOr(NewNode())
  {
    var rest := names[1..][..i - 1];
    assert names[..i][0] == names[0] && names[..i][1..] == rest;
    if !Has(n.kids, names[0]) && i > 1 {
      assert Get(NewNode(), rest) == None;
    }
  }

  /** A walk that parts ways with a creating walk's names sees no change. */
  lemma {:induction false} TouchFrame(n: Node, names: seq<string>, leaf: Leaf, q: seq<string>)
    requires Diverges(q, names)
    ensures Get(Touch(n, names, leaf), q) == Get(n, q)
    decreases |names|
  {
    var i :| 0 <= i < |q| && i < |names| && q[i] != names[i];
    var child := if Has(n.kids, names[0]) then Find(n.kids, names[0]) else NewNode();
    if q[0] == names[0] {
      assert q[1..][i - 1] != names[1..][i - 1];
      TouchFrame(child, names[1..], leaf, q[1..]);
      if !Has(n.kids, names[0]) {
        assert Get(NewNode(), q[1..]) == None;
      }
    }
  }

  // ---------------------------------------------------------------------------
  // The operations

  /** `mkdir` leaves a directory at the path: the node already there, or a new one. */
  lemma MkdirMakesDirectory(fs: FileSystem, path: string)
    ensures FindNode(Mkdir(fs, path), path) == Some(FindNode(fs, path).GetOr(NewNode()).(isDir := true))
  {
    TouchReaches(fs.root, NonEmpty(Split(path)), SetDir);
  }

  /** `mkdir` does not make the nodes above the path directories: each keeps
      its flag, and one it had to create is not a directory. */
  lemma MkdirKeepsAncestors(fs: FileSystem, path: string, i: nat)
    requires i < |NonEmpty(Split(path))|
    ensures Get(Mkdir(fs, path).root, NonEmpty(Split(path))[..i]).Some?
    ensures Get(Mkdir(fs, path).root, NonEmpty(Split(path))[..i]).value.isDir
            == Get(fs.root, NonEmpty(Split(path))[..i]).GetOr(NewNode()).isDir
  {
    TouchKeepsAncestors(fs.root, NonEmpty(Split(path)), SetDir, i);
  }

  /** `mkdir` changes nothing on a walk that parts ways with the path. */
  lemma MkdirFrame(fs: FileSystem, path: string, q: seq<string>)
    requires Diverges(q, NonEmpty(Split(path)))
    ensures Get(Mkdir(fs, path).root, q) == Get(fs.root, q)
  {
    TouchFrame(fs.root, NonEmpty(Split(path)), SetDir, q);
  }

  /** `add_content_to_file` changes nothing on a walk that parts ways with the file's. */
  lemma AddContentFrame(fs: FileSystem, path: string, content: string, q: seq<string>)
    requires Diverges(q, FileWalk(path))
    ensures Get(AddContent(fs, path, content).root, q) == Get(fs.root, q)
  {
    TouchFrame(fs.root, FileWalk(path), AppendContent(content), q);
  }

  /** For a path that does not end in a separator, the file walk is the walk `_find_node` takes. */
  lemma FileWalkIsFindWalk(path: string)
    requires LastPart(path) != ""
    ensures FileWalk(path) == NonEmpty(Split(path))
  {
    var parts := Split(path);
    assert parts == parts[..|parts| - 1] + [parts[|parts| - 1]];
    NonEmptySnoc(parts[..|parts| - 1], parts[|parts| - 1]);
  }

  /** After `add_content_to_file`, the path names a file holding the earlier
      content (`''` for a new node) followed by the appended text. */
  lemma ReadAfterAdd(fs: FileSystem, path: string, content: string)
    requires LastPart(path) != ""
    ensures ReadContent(AddContent(fs, path, content), path) == Prior(fs, path) + content
  {
    FileWalkIsFindWalk(path);
    TouchReaches(fs.root, NonEmpty(Split(path)), AppendContent(content));
    if FindNode(fs, path).None? {
      assert "" + content == content;
    }
  }

  /** Two appends to the same file concatenate. */
  lemma AddTwiceConcatenates(fs: FileSystem, path: string, c1: string, c2: string)
    requires LastPart(path) != ""
    ensures ReadContent(AddContent(AddContent(fs, path, c1), path, c2), path) == Prior(fs, path) + c1 + c2
  {
    var fs1 := AddContent(fs, path, c1);
    ReadAfterAdd(fs, path, c1);
    ReadAfterAdd(fs1, path, c2);
    FileWalkIsFindWalk(path);
    TouchReaches(fs.root, NonEmpty(Split(path)), AppendContent(c1));
    assert Prior(fs1, path) == Prior(fs, path) + c1;
  }

  // ---------------------------------------------------------------------------
  // Sizes

  /** A directory's size is the sum of its children's sizes. */
  lemma DirSize(n: Node)
    requires n.isDir
    ensures Size(n) == Seqs.Sum(ChildSizes(n))
  {
    KidsSizeIsSum(n, 0);
    assert ChildSizes(n)[0..] == ChildSizes(n);
  }

  /** `children[p] = x` changes the children's total by the size difference. */
  lemma ChildSizesPut(n: Node, p: string, x: Node)
    ensures Seqs.Sum(ChildSizes(n.(kids := Put(n.kids, p, x))))
            == Seqs.Sum(ChildSizes(n)) - (if Has(n.kids, p) then Size(Find(n.kids, p)) else 0) + Size(x)
  {
    if Has(n.kids, p) {
      ChildSizesReplace(n, p, x);
    } else {
      ChildSizesAdd(n, p, x);
    }
  }

  lemma ChildSizesReplace(n: Node, p: string, x: Node)
    requires Has(n.kids, p)
    ensures Seqs.Sum(ChildSizes(n.(kids := Put(n.kids, p, x)))) == Seqs.Sum(ChildSizes(n)) - Size(Find(n.kids, p)) + Size(x)
  {
    var n' := n.(kids := Put(n.kids, p, x));
    var j := IndexOf(n.kids, p);
    assert ChildSizes(n') == ChildSizes(n)[j := Size(x)];
    Seqs.SumUpdate(ChildSizes(n), j, Size(x));
  }

  lemma ChildSizesAdd(n: Node, p: string, x: Node)
    requires !Has(n.kids, p)
    ensures Seqs.Sum(ChildSizes(n.(kids := Put(n.kids, p, x)))) == Seqs.Sum(ChildSizes(n)) + Size(x)
  {
    var n' := n.(kids := Put(n.kids, p, x));
    assert ChildSizes(n') == ChildSizes(n) + [Size(x)];
    Seqs.SumAppend(ChildSizes(n), [Size(x)]);
    assert Seqs.Sum([Size(x)]) == Seqs.Sum([]) + Size(x);
  }

  /** Every node above the end of a walk exists and is a directory, and the
      walk ends at no node or at a non-directory. */
  ghost predicate OnDirectories(n: Node, names: seq<string>) {
    && (forall i :: 0 <= i < |names| ==> Get(n, names[..i]).Some? && Get(n, names[..i]).value.isDir)
    && (Get(n, names).None? || !Get(n, names).value.isDir)
  }

  /** Appending to a file whose every enclosing node is a directory grows the
      size of each of them by the length of the text. */
  lemma {:induction false} TouchAppendGrows(n: Node, names: seq<string>, c: string)
    requires OnDirectories(n, names)
    ensures Size(Touch(n, names, AppendContent(c))) == Size(n) + |c|
    decreases |names|
  {
    if |names| > 0 {
      assert names[..0] == [];
      var p := names[0];
      var rest := names[1..];
      var child := if Has(n.kids, p) then Find(n.kids, p) else NewNode();
      var t := Touch(child, rest, AppendContent(c));
      assert names[..1] == [p];
      if Has(n.kids, p) {
        assert OnDirectories(child, rest) by {
          forall i | 0 <= i < |rest|
            ensures Get(child, rest[..i]).Some? && Get(child, rest[..i]).value.isDir
          {
            assert names[..i + 1] == [p] + rest[..i];
            assert Get(n, names[..i + 1]) == Get(child, rest[..i]);
          }
          assert names == [p] + rest;
        }
        TouchAppendGrows(child, rest, c);
      } else {
        assert t == Node(false, c, []);
      }
      ChildSizesPut(n, p, t);
      DirSize(n);
      DirSize(Touch(n, names, AppendContent(c)));
    }
  }

  /** `get_size('/')` grows by the length of the appended text when every
      node above the file is a directory. */
  lemma AddGrowsRootSize(fs: FileSystem, path: string, content: string)
    requires OnDirectories(fs.root, FileWalk(path))
    ensures GetSize(AddContent(fs, path, content), "/") == GetSize(fs, "/") + |content|
  {
    FindRoot(fs);
    FindRoot(AddContent(fs, path, content));
    TouchAppendGrows(fs.root, FileWalk(path), content);
  }

  // ---------------------------------------------------------------------------
  // The module's own demonstration

  /** Single-child nodes along `names` below `top`, each a `Node()` except
      `top`, with `bottom` at the end. */
  function Hang(top: Node, names: seq<string>, bottom: Node): Node
    decreases |names|
  {
    if |names| == 0 then bottom
    else top.(kids := [(names[0], Hang(NewNode(), names[1..], bottom))])
  }

  /** A creating walk below a childless node builds a hanging chain. */
  lemma {:induction false} TouchFresh(top: Node, names: seq<string>, leaf: Leaf)
    requires top.kids == [] && |names| > 0
    ensures Touch(top, names, leaf) == Hang(top, names, Apply(NewNode(), leaf))
    decreases |names|
  {
    assert !Has(top.kids, names[0]);
    var t := Touch(NewNode(), names[1..], leaf);
    assert Touch(top, names, leaf) == top.(kids := Put(top.kids, names[0], t));
    assert Put(top.kids, names[0], t) == [(names[0], t)];
    if |names| > 1 {
      TouchFresh(NewNode(), names[1..], leaf);
    }
    assert t == Hang(NewNode(), names[1..], Apply(NewNode(), leaf));
  }

  /** A creating walk along a hanging chain acts at its bottom. */
  lemma {:induction false} TouchHang(top: Node, names: seq<string>, bottom: Node, rest: seq<string>, leaf: Leaf)
    ensures Touch(Hang(top, names, bottom), names + rest, leaf) == Hang(top, names, Touch(bottom, rest, leaf))
    decreases |names|
  {
    if |names| > 0 {
      var h := Hang(top, names, bottom);
      assert (names + rest)[0] == names[0];
      assert (names + rest)[1..] == names[1..] + rest;
      assert h.kids[0].0 == names[0];
      TouchHang(NewNode(), names[1..], bottom, rest, leaf);
      var t := Hang(NewNode(), names[1..], Touch(bottom, rest, leaf));
      assert IndexOf(h.kids, names[0]) == 0;
      assert Put(h.kids, names[0], t) == [(names[0], t)];
    } else {
      assert names + rest == rest;
    }
  }

  /** A walk along a hanging chain continues from its bottom. */
  lemma {:induction false} GetHang(top: Node, names: seq<string>, bottom: Node, rest: seq<string>)
    ensures Get(Hang(top, names, bottom), names + rest) == Get(bottom, rest)
    decreases |names|
  {
    if |names| > 0 {
      var h := Hang(top, names, bottom);
      assert (names + rest)[0] == names[0];
      assert (names + rest)[1..] == names[1..] + rest;
      assert h.kids[0].0 == names[0];
      GetHang(NewNode(), names[1..], bottom, rest);
    } else {
      assert names + rest == rest;
    }
  }

  /** How a file path built from separator-free pieces splits into names. */
  lemma PathsOfParts(parts: seq<string>, name: string)
    requires |parts| >= 1 && forall i :: 0 <= i < |parts| ==> '/' !in parts[i]
    requires '/' !in name && name != ""
    ensures NonEmpty(Split(Join(parts))) == NonEmpty(parts)
    ensures FileWalk(Join(parts + [name])) == NonEmpty(parts) + [name]
    ensures NonEmpty(Split(Join(parts + [name]))) == NonEmpty(parts) + [name]
  {
    SplitJoin(parts);
    var fileParts := parts + [name];
    FilePartsSplit(parts, name);
    assert fileParts[..|fileParts| - 1] == parts;
    NonEmptySnoc(parts, name);
  }

  lemma FilePartsSplit(parts: seq<string>, name: string)
    requires |parts| >= 1 && forall i :: 0 <= i < |parts| ==> '/' !in parts[i]
    requires '/' !in name
    ensures Split(Join(parts + [name])) == parts + [name]
  {
    var fileParts := parts + [name];
    forall i | 0 <= i < |fileParts|
      ensures '/' !in fileParts[i]
    {
      if i < |parts| { assert fileParts[i] == parts[i]; } else { assert fileParts[i] == name; }
    }
    SplitJoin(fileParts);
  }

  /** The tree after `mkdir` of a path and an append to a file in it, on a new file system. */
  lemma FreshTree(names: seq<string>, name: string, c: string)
    requires |names| > 0
    ensures Touch(Touch(Init().root, names, SetDir), names + [name], AppendContent(c))
            == Hang(Init().root, names, Node(true, "", [(name, Node(false, c, []))]))
  {
    var root := Init().root;
    var d0 := Apply(NewNode(), SetDir);
    TouchFresh(root, names, SetDir);
    TouchHang(root, names, d0, [name], AppendContent(c));
    NewDirWithFile(name, c);
  }

  /** Appending to a file in a new, empty directory. */
  lemma NewDirWithFile(name: string, c: string)
    ensures Touch(Apply(NewNode(), SetDir), [name], AppendContent(c)) == Node(true, "", [(name, Node(false, c, []))])
  {
    var none: Assoc<Node> := [];
    assert !Has(none, name);
    assert "" + c == c;
    assert Touch(NewNode(), [], AppendContent(c)) == Node(false, c, []);
    assert Put(none, name, Node(false, c, [])) == [(name, Node(false, c, []))];
  }

  /** On a new file system, `mkdir` of a directory at least two names deep and
      then an append to a file in it: reading the file gives the text, `ls`
      of the directory lists the file, `get_size` of the directory is the
      text's length, and `get_size('/')` is 0, because `mkdir` left the
      directory's ancestors as non-directories. */
  lemma FreshMkdirThenAdd(parts: seq<string>, name: string, c: string)
    requires |parts| >= 1 && forall i :: 0 <= i < |parts| ==> '/' !in parts[i]
    requires '/' !in name && name != ""
    requires |NonEmpty(parts)| >= 2
    ensures ReadContent(AddContent(Mkdir(Init(), Join(parts)), Join(parts + [name]), c), Join(parts + [name])) == c
    ensures Ls(AddContent(Mkdir(Init(), Join(parts)), Join(parts + [name]), c), Join(parts)) == Names([name])
    ensures GetSize(AddContent(Mkdir(Init(), Join(parts)), Join(parts + [name]), c), Join(parts)) == |c|
    ensures GetSize(AddContent(Mkdir(Init(), Join(parts)), Join(parts + [name]), c), "/") == 0
  {
    var names := NonEmpty(parts);
    PathsOfParts(parts, name);
    FreshTree(names, name, c);
    var b := Node(true, "", [(name, Node(false, c, []))]);
    var fs2 := AddContent(Mkdir(Init(), Join(parts)), Join(parts + [name]), c);
    assert fs2.root == Hang(Init().root, names, b);
    FreshQueries(fs2, names, Join(parts), Join(parts + [name]), name, c);
  }

  /** The queries on the tree `FreshTree` describes. */
  lemma FreshQueries(fs: FileSystem, names: seq<string>, dir: string, file: string, name: string, c: string)
    requires |names| >= 2
    requires NonEmpty(Split(dir)) == names && NonEmpty(Split(file)) == names + [name]
    requires fs.root == Hang(Init().root, names, Node(true, "", [(name, Node(false, c, []))]))
    ensures ReadContent(fs, file) == c
    ensures Ls(fs, dir) == Names([name])
    ensures GetSize(fs, dir) == |c|
    ensures GetSize(fs, "/") == 0
  {
    var leafFile := Node(false, c, []);
    var b := Node(true, "", [(name, leafFile)]);
    GetHang(Init().root, names, b, [name]);
    assert b.kids[0].0 == name;
    assert FindNode(fs, file) == Some(leafFile);
    GetHang(Init().root, names, b, []);
    assert names + [] == names;
    assert FindNode(fs, dir) == Some(b);
    assert Keys(b.kids) == [name];
    assert KidsSize(b, 1) == 0;
    assert b.kids[0].1 == leafFile;
    assert Size(leafFile) == |c|;
    assert KidsSize(b, 0) == Size(leafFile) + KidsSize(b, 1);
    assert Size(b) == |c|;
    FindRoot(fs);
    var top := Hang(NewNode(), names[1..], b);
    assert !top.isDir && top.content == "";
  }

  const DemoParts: seq<string> := ["", "Users", "j0c0p72", "Downloads", "hello", "work"]

  /** The demonstration, `mkdir('/Users/j0c0p72/Downloads/hello/work')` and
      then 'hello, Jae' added to `file.txt` in it, is an instance of
      `FreshMkdirThenAdd`: its directory path joins these pieces. */
  lemma DemoFits()
    ensures |DemoParts| >= 1 && forall i :: 0 <= i < |DemoParts| ==> '/' !in DemoParts[i]
    ensures '/' !in "file.txt" && "file.txt" != ""
    ensures |NonEmpty(DemoParts)| >= 2
  {
    assert NonEmpty(DemoParts) == DemoParts[1..];
  }

  /** `'/Users/j0c0p72/Downloads/hello/work'`, written as the join of its pieces. */
  const DemoDir: string := Join(DemoParts)

  /** `DemoDir + '/file.txt'`. */
  const DemoFile: string := Join(DemoParts + ["file.txt"])

  /** The demonstration reads `'hello, Jae'` back from `file.txt` and lists
      `file.txt` as the directory's one name. */
  lemma Demo()
    ensures ReadContent(AddContent(Mkdir(Init(), DemoDir), DemoFile, "hello, Jae"), DemoFile) == "hello, Jae"
    ensures Ls(AddContent(Mkdir(Init(), DemoDir), DemoFile, "hello, Jae"), DemoDir) == Names(["file.txt"])
  {
    DemoFits();
    FreshMkdirThenAdd(DemoParts, "file.txt", "hello, Jae");
  }

  // ---------------------------------------------------------------------------
  // The evident intent of `mkdir`

  /** A creating walk that marks every node it reaches as a directory, as
      `current.is_directory = True` inside the loop of `mkdir` would. */
  function MarkDirs(n: Node, names: seq<string>): Node
    decreases |names|
  {
    if |names| == 0 then n
    else
      var child := if Has(n.kids, names[0]) then Find(n.kids, names[0]) else NewNode();
      n.(kids := Put(n.kids, names[0], MarkDirs(child.(isDir := true), names[1..])))
  }

  /** `mkdir(path)` as intended: every name on the path becomes a directory. */
  function MkdirAll(fs: FileSystem, path: string): FileSystem {
    FileSystem(MarkDirs(fs.root, NonEmpty(Split(path))))
  }

  /** After the marking walk, every non-empty prefix of its names leads to a
      directory, and the top node keeps its own flag. */
  lemma {:induction false} MarkDirsReaches(n: Node, names: seq<string>)
    ensures MarkDirs(n, names).isDir == n.isDir
    ensures forall i :: 0 < i <= |names| ==>
              Get(MarkDirs(n, names), names[..i]).Some? && Get(MarkDirs(n, names), names[..i]).value.isDir
    decreases |names|
  {
    if |names| > 0 {
      var p := names[0];
      var rest := names[1..];
      var child := if Has(n.kids, p) then Find(n.kids, p) else NewNode();
      var marked := MarkDirs(child.(isDir := true), rest);
      MarkDirsReaches(child.(isDir := true), rest);
      forall i | 0 < i <= |names|
        ensures Get(MarkDirs(n, names), names[..i]).Some? && Get(MarkDirs(n, names), names[..i]).value.isDir
      {
        assert names[..i] == [p] + rest[..i - 1];
        assert Get(MarkDirs(n, names), names[..i]) == Get(marked, rest[..i - 1]);
        if i == 1 {
          assert rest[..0] == [];
        }
      }
    }
  }

  /** On a new, empty directory the marking walk ends at a new, empty
      directory and builds a tree of size 0. */
  lemma {:induction false} MarkDirsFresh(names: seq<string>)
    ensures Get(MarkDirs(Init().root, names), names) == Some(Init().root)
    ensures Size(MarkDirs(Init().root, names)) == 0
    decreases |names|
  {
    var n := Init().root;
    if |names| > 0 {
      var p := names[0];
      var none: Assoc<Node> := [];
      assert !Has(none, p);
      assert NewNode().(isDir := true) == n;
      MarkDirsFresh(names[1..]);
      var marked := MarkDirs(n, names[1..]);
      var r := MarkDirs(n, names);
      assert r.kids == [(p, marked)];
      assert KidsSize(r, 1) == 0;
      assert Size(r) == Size(marked) + KidsSize(r, 1);
    }
  }

  /** With the intended `mkdir`, the same sequence as `FreshMkdirThenAdd`
      gives `get_size('/')` the text's length. */
  lemma FreshMkdirAllThenAdd(parts: seq<string>, name: string, c: string)
    requires |parts| >= 1 && forall i :: 0 <= i < |parts| ==> '/' !in parts[i]
    requires '/' !in name && name != ""
    ensures GetSize(AddContent(MkdirAll(Init(), Join(parts)), Join(parts + [name]), c), "/") == |c|
  {
    var names := NonEmpty(parts);
    PathsOfParts(parts, name);
    var fs1 := MkdirAll(Init(), Join(parts));
    assert fs1.root == MarkDirs(Init().root, names);
    MarkedOnDirectories(names, name);
    AddGrowsRootSize(fs1, Join(parts + [name]), c);
    FindRoot(fs1);
  }

  /** The fresh tree the marking walk builds has directories all the way down
      to the file's missing node, and size 0. */
  lemma MarkedOnDirectories(names: seq<string>, name: string)
    ensures OnDirectories(MarkDirs(Init().root, names), names + [name])
    ensures Size(MarkDirs(Init().root, names)) == 0
  {
    var r := MarkDirs(Init().root, names);
    MarkDirsReaches(Init().root, names);
    MarkDirsFresh(names);
    var walk := names + [name];
    forall i | 0 <= i < |walk|
      ensures Get(r, walk[..i]).Some? && Get(r, walk[..i]).value.isDir
    {
      assert walk[..i] == names[..i];
      if i == 0 {
        assert names[..0] == [];
      }
    }
    GetAppend(r, names, [name]);
    assert names[..|names|] == names;
  }

  /** The demonstration with the intended `mkdir`: `get_size('/')` is the
      length of `'hello, Jae'`, where the program as written gives 0. */
  lemma DemoSizes()
    ensures GetSize(AddContent(Mkdir(Init(), DemoDir), DemoFile, "hello, Jae"), "/") == 0
    ensures GetSize(AddContent(MkdirAll(Init(), DemoDir), DemoFile, "hello, Jae"), "/") == 10
  {
    DemoFits();
    FreshMkdirThenAdd(DemoParts, "file.txt", "hello, Jae");
    FreshMkdirAllThenAdd(DemoParts, "file.txt", "hello, Jae");
  }
}
