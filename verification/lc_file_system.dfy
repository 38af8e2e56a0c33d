/** The dictionary file system of other-topics/lc-file-system.py.

    A directory is a Python dict from names to entries, and a file is the str
    of its content, so the tree is a value of `Entry`. Every operation is a
    function from the old file system to its result; an operation that raises
    a Python exception returns `Raises` with the exception's class. */
module LcFileSystem {
  import opened Wrappers
  import opened AssocLists
  import opened Paths
  import Strings

  datatype Entry = Dir(kids: Assoc<Entry>) | File(content: string)

  /** The exception classes the operations can raise. */
  datatype PyError = TypeError | KeyError | AttributeError

  datatype Outcome<T> = Ok(value: T) | Raises(error: PyError)

  /** `self.root`: always a dict. */
  datatype FileSystem = FileSystem(root: Assoc<Entry>)

  /** `FileSystem()`. */
  function Init(): FileSystem {
    FileSystem([])
  }

  /** Python's `needle in text` on two strings. */
  predicate Contains(text: string, needle: string)
    decreases |text|
  {
    needle <= text || (|text| > 0 && Contains(text[1..], needle))
  }

  /** The loop of `_traverse` without `create`: `None` at the first missing
      name. Below a file, `part in curr` tests for a substring; when it is one,
      `curr[part]` indexes a str with a str and raises `TypeError`. */
  function Walk(e: Entry, parts: seq<string>): Outcome<Option<Entry>>
    decreases |parts|
  {
    if |parts| == 0 then Ok(Some(e))
    else match e
      case Dir(kids) =>
        if Has(kids, parts[0]) then Walk(Find(kids, parts[0]), parts[1..]) else Ok(None)
      case File(c) =>
        if Contains(c, parts[0]) then Raises(TypeError) else Ok(None)
  }

  /** `_traverse(path)`: the root itself for `'/'`, else a walk of `path.split('/')[1:]`. */
  function Traverse(fs: FileSystem, path: string): Outcome<Option<Entry>> {
    if path == "/" then Ok(Some(Dir(fs.root))) else Walk(Dir(fs.root), Tail(path))
  }

  /** What a creating walk does once it has reached its last directory. */
  datatype Leaf = MakeDir | AppendFile(name: string, content: string)

  /** The names whose entries a creating walk over `parts` may change. */
  function Target(parts: seq<string>, leaf: Leaf): seq<string> {
    if leaf.AppendFile? then parts + [leaf.name] else parts
  }

  /** The creating walk shared by `_traverse(path, create=True)` and
      `addContentToFile`: a missing name gets a new empty dict; a file met
      with names still to go raises `TypeError`. At the end, `MakeDir` leaves
      the entry as it is, and `AppendFile` creates the file `''` if absent and
      appends to it (`+=` on a dict raises `TypeError`). */
  function Descend(kids: Assoc<Entry>, parts: seq<string>, leaf: Leaf): Outcome<Assoc<Entry>>
    decreases |parts|
  {
    if |parts| == 0 then
      match leaf
      case MakeDir => Ok(kids)
      case AppendFile(name, c) =>
        if !Has(kids, name) then Ok(Put(kids, name, File(c)))
        else (match Find(kids, name)
              case File(prev) => Ok(Put(kids, name, File(prev + c)))
              case Dir(_) => Raises(TypeError))
    else
      var p := parts[0];
      var child := if Has(kids, p) then Find(kids, p) else Dir([]);
      match child
      case File(_) =>
        if |parts| == 1 && leaf == MakeDir then Ok(kids) else Raises(TypeError)
      case Dir(ck) =>
        (match Descend(ck, parts[1..], leaf)
         case Ok(r) => Ok(Put(kids, p, Dir(r)))
         case Raises(err) => Raises(err))
  }

  /** `mkdir(path)`. */
  function Mkdir(fs: FileSystem, path: string): Outcome<FileSystem> {
    if path == "/" then Ok(fs)
    else match Descend(fs.root, Tail(path), MakeDir)
      case Ok(r) => Ok(FileSystem(r))
      case Raises(err) => Raises(err)
  }

  /** The names `addContentToFile` walks: `parts[1:-1]`, then the file's own name. */
  function FileParts(path: string): seq<string> {
    Middle(path) + [LastPart(path)]
  }

  /** `addContentToFile(filePath, content)`. */
  function AddContent(fs: FileSystem, path: string, content: string): Outcome<FileSystem> {
    match Descend(fs.root, Middle(path), AppendFile(LastPart(path), content))
    case Ok(r) => Ok(FileSystem(r))
    case Raises(err) => Raises(err)
  }

  /** The non-creating walk of `readContentFromFile`: `curr[part]` raises
      `KeyError` for a missing name and `TypeError` on a file. */
  function Read(kids: Assoc<Entry>, parts: seq<string>, last: string): Outcome<Entry>
    decreases |parts|
  {
    if |parts| == 0 then
      if Has(kids, last) then Ok(Find(kids, last)) else Raises(KeyError)
    else if !Has(kids, parts[0]) then Raises(KeyError)
    else match Find(kids, parts[0])
      case Dir(ck) => Read(ck, parts[1..], last)
      case File(_) => Raises(TypeError)
  }

  /** `readContentFromFile(filePath)`: the entry stored under the path, which
      is the file's content when it names a file. */
  function ReadContent(fs: FileSystem, path: string): Outcome<Entry> {
    Read(fs.root, Middle(path), LastPart(path))
  }

  /** `ls(path)`: a file lists as its own name, a directory as its names in
      sorted order; a missing path makes `None.keys()` raise `AttributeError`. */
  function Ls(fs: FileSystem, path: string): (r: Outcome<seq<string>>)
    ensures Traverse(fs, path).Raises? ==> r == Raises(Traverse(fs, path).error)
    ensures Traverse(fs, path) == Ok(None) ==> r == Raises(AttributeError)
    ensures forall c :: Traverse(fs, path) == Ok(Some(File(c))) ==> r == Ok([LastPart(path)])
    ensures forall kids :: Traverse(fs, path) == Ok(Some(Dir(kids))) ==>
      r.Ok? && Strings.SortedStrings(r.value) && multiset(r.value) == multiset(Keys(kids))
  {
    match Traverse(fs, path)
    case Raises(err) => Raises(err)
    case Ok(None) => Raises(AttributeError)
    case Ok(Some(File(_))) => Ok([LastPart(path)])
    case Ok(Some(Dir(kids))) => Ok(Strings.Sort(Keys(kids)))
  }

  /** The content a read finds before an append: the file's content, or `''`
      when there is no file yet. */
  function Prior(o: Outcome<Entry>): string {
    if o.Ok? && o.value.File? then o.value.content else ""
  }

  // ---------------------------------------------------------------------------
  // Walks

  /** A walk over `a + b` is a walk over `a` followed by a walk over `b`; a
      walk that stops early (a missing name, an exception) stops the whole walk. */
  lemma {:induction false} WalkAppend(e: Entry, a: seq<string>, b: seq<string>)
    ensures Walk(e, a + b) == if Walk(e, a).Ok? && Walk(e, a).value.Some?
                              then Walk(Walk(e, a).value.value, b) else Walk(e, a)
    decreases |a|
  {
    if |a| > 0 {
      assert (a + b)[0] == a[0];
      assert (a + b)[1..] == a[1..] + b;
      match e
      case Dir(kids) =>
        if Has(kids, a[0]) {
          WalkAppend(Find(kids, a[0]), a[1..], b);
        }
      case File(_) =>
    } else {
      assert a + b == b;
    }
  }

  /** A walk through a name other than `p` does not see `d[p] = x`. */
  lemma WalkPutOther(kids: Assoc<Entry>, p: string, x: Entry, q: seq<string>)
    requires |q| > 0 && q[0] != p
    ensures Walk(Dir(Put(kids, p, x)), q) == Walk(Dir(kids), q)
  {
  }

  // ---------------------------------------------------------------------------
  // The creating walk

  /** After a successful `mkdir` walk, the path leads to what was there
      before, or to a new empty directory where nothing was. */
  lemma {:induction false} DescendMakeDirReaches(kids: Assoc<Entry>, parts: seq<string>)
    requires Descend(kids, parts, MakeDir).Ok?
    ensures Walk(Dir(Descend(kids, parts, MakeDir).value), parts)
            == if Walk(Dir(kids), parts) == Ok(None) then Ok(Some(Dir([]))) else Walk(Dir(kids), parts)
    decreases |parts|
  {
    if |parts| > 0 {
      var p := parts[0];
      var child := if Has(kids, p) then Find(kids, p) else Dir([]);
      if child.Dir? {
        DescendMakeDirReaches(child.kids, parts[1..]);
      }
    }
  }

  /** A second `mkdir` walk over the same names changes nothing. */
  lemma {:induction false} DescendMakeDirIdempotent(kids: Assoc<Entry>, parts: seq<string>)
    requires Descend(kids, parts, MakeDir).Ok?
    ensures Descend(Descend(kids, parts, MakeDir).value, parts, MakeDir) == Descend(kids, parts, MakeDir)
    decreases |parts|
  {
    if |parts| > 0 {
      var p := parts[0];
      var child := if Has(kids, p) then Find(kids, p) else Dir([]);
      if child.Dir? {
        DescendMakeDirIdempotent(child.kids, parts[1..]);
        var r' := Descend(child.kids, parts[1..], MakeDir).value;
        var r := Put(kids, p, Dir(r'));
        assert Find(r, p) == Dir(r');
        PutSame(r, p);
      }
    }
  }

  /** A walk that parts ways with the creating walk's names sees no change. */
  lemma {:induction false} DescendFrame(kids: Assoc<Entry>, parts: seq<string>, leaf: Leaf, q: seq<string>)
    requires Descend(kids, parts, leaf).Ok?
    requires Diverges(q, Target(parts, leaf))
    ensures Walk(Dir(Descend(kids, parts, leaf).value), q) == Walk(Dir(kids), q)
    decreases |parts|
  {
    var i :| 0 <= i < |q| && i < |Target(parts, leaf)| && q[i] != Target(parts, leaf)[i];
    if |parts| == 0 {
      WalkPutOther(kids, leaf.name, Find(Descend(kids, parts, leaf).value, leaf.name), q);
    } else {
      var p := parts[0];
      var child := if Has(kids, p) then Find(kids, p) else Dir([]);
      if child.Dir? {
        var r' := Descend(child.kids, parts[1..], leaf).value;
        if q[0] != p {
          WalkPutOther(kids, p, Dir(r'), q);
        } else {
          DivergesTail(q, parts, leaf);
          DescendFrame(child.kids, parts[1..], leaf, q[1..]);
        }
      }
    }
  }

  /** Two walks that agree on their first name part ways later. */
  lemma DivergesTail(q: seq<string>, parts: seq<string>, leaf: Leaf)
    requires |parts| > 0 && |q| > 0 && q[0] == parts[0]
    requires Diverges(q, Target(parts, leaf))
    ensures Diverges(q[1..], Target(parts[1..], leaf))
  {
    var t := Target(parts, leaf);
    assert t[1..] == Target(parts[1..], leaf);
    var i :| 0 <= i < |q| && i < |t| && q[i] != t[i];
    assert q[1..][i - 1] != t[1..][i - 1];
  }

  /** After a successful append walk, reading the file gives its earlier
      content followed by the appended text. */
  lemma {:induction false} DescendAppendRead(kids: Assoc<Entry>, parts: seq<string>, name: string, c: string)
    requires Descend(kids, parts, AppendFile(name, c)).Ok?
    ensures Read(Descend(kids, parts, AppendFile(name, c)).value, parts, name)
            == Ok(File(Prior(Read(kids, parts, name)) + c))
    decreases |parts|
  {
    if |parts| == 0 {
      if !Has(kids, name) {
        assert "" + c == c;
      }
    } else {
      var p := parts[0];
      var child := if Has(kids, p) then Find(kids, p) else Dir([]);
      if child.Dir? {
        DescendAppendRead(child.kids, parts[1..], name, c);
        if !Has(kids, p) {
          assert Read([], parts[1..], name).Raises?;
        }
      }
    }
  }

  // ---------------------------------------------------------------------------
  // The operations

  /** `mkdir` makes the path lead to an entry: the one already there, or a new
      empty directory where the walk found nothing. */
  lemma MkdirCreatesPath(fs: FileSystem, path: string)
    requires Mkdir(fs, path).Ok?
    ensures Traverse(Mkdir(fs, path).value, path)
            == if Traverse(fs, path) == Ok(None) then Ok(Some(Dir([]))) else Traverse(fs, path)
  {
    if path != "/" {
      DescendMakeDirReaches(fs.root, Tail(path));
    }
  }

  /** `mkdir` twice is `mkdir` once. */
  lemma MkdirIdempotent(fs: FileSystem, path: string)
    requires Mkdir(fs, path).Ok?
    ensures Mkdir(Mkdir(fs, path).value, path) == Mkdir(fs, path)
  {
    if path != "/" {
      DescendMakeDirIdempotent(fs.root, Tail(path));
    }
  }

  /** `mkdir` changes nothing on a path that parts ways with its own. */
  lemma MkdirFrame(fs: FileSystem, path: string, other: string)
    requires Mkdir(fs, path).Ok?
    requires other != "/" && Diverges(Tail(other), Tail(path))
    ensures Traverse(Mkdir(fs, path).value, other) == Traverse(fs, other)
  {
    if path != "/" {
      DescendFrame(fs.root, Tail(path), MakeDir, Tail(other));
    }
  }

  /** `addContentToFile` changes nothing on a path that parts ways with the file's. */
  lemma AddContentFrame(fs: FileSystem, path: string, content: string, other: string)
    requires AddContent(fs, path, content).Ok?
    requires other != "/" && Diverges(Tail(other), FileParts(path))
    ensures Traverse(AddContent(fs, path, content).value, other) == Traverse(fs, other)
  {
    DescendFrame(fs.root, Middle(path), AppendFile(LastPart(path), content), Tail(other));
  }

  /** Reading after `addContentToFile` gives the earlier content (`''` for a
      new file) followed by the appended text. */
  lemma ReadAfterAdd(fs: FileSystem, path: string, content: string)
    requires AddContent(fs, path, content).Ok?
    ensures ReadContent(AddContent(fs, path, content).value, path)
            == Ok(File(Prior(ReadContent(fs, path)) + content))
  {
    DescendAppendRead(fs.root, Middle(path), LastPart(path), content);
  }

  /** Two appends to the same file concatenate. */
  lemma AddTwiceConcatenates(fs: FileSystem, path: string, c1: string, c2: string)
    requires AddContent(fs, path, c1).Ok?
    requires AddContent(AddContent(fs, path, c1).value, path, c2).Ok?
    ensures ReadContent(AddContent(AddContent(fs, path, c1).value, path, c2).value, path)
            == Ok(File(Prior(ReadContent(fs, path)) + c1 + c2))
  {
    ReadAfterAdd(fs, path, c1);
    ReadAfterAdd(AddContent(fs, path, c1).value, path, c2);
  }

  // ---------------------------------------------------------------------------
  // The module's own demonstration

  /** Single-entry directories nested along `parts`, holding `bottom` in the innermost one. */
  function Chain(parts: seq<string>, bottom: Assoc<Entry>): Assoc<Entry>
    decreases |parts|
  {
    if |parts| == 0 then bottom else [(parts[0], Dir(Chain(parts[1..], bottom)))]
  }

  /** `mkdir` in an empty directory builds the chain of its names. */
  lemma {:induction false} MakeDirOnEmpty(parts: seq<string>)
    ensures Descend([], parts, MakeDir) == Ok(Chain(parts, []))
    decreases |parts|
  {
    if |parts| > 0 {
      MakeDirOnEmpty(parts[1..]);
      var inner := Chain(parts[1..], []);
      var none: Assoc<Entry> := [];
      assert !Has(none, parts[0]);
      assert Put([], parts[0], Dir(inner)) == [(parts[0], Dir(inner))];
    }
  }

  /** A creating walk along an existing chain acts on its innermost directory only. */
  lemma {:induction false} DescendChain(parts: seq<string>, bottom: Assoc<Entry>, leaf: Leaf)
    requires Descend(bottom, [], leaf).Ok?
    ensures Descend(Chain(parts, bottom), parts, leaf) == Ok(Chain(parts, Descend(bottom, [], leaf).value))
    decreases |parts|
  {
    if |parts| > 0 {
      var c := Chain(parts, bottom);
      assert c[0].0 == parts[0];
      DescendChain(parts[1..], bottom, leaf);
      var inner := Chain(parts[1..], Descend(bottom, [], leaf).value);
      assert IndexOf(c, parts[0]) == 0;
      assert Put(c, parts[0], Dir(inner)) == [(parts[0], Dir(inner))];
    }
  }

  /** Reading along a chain reads its innermost directory. */
  lemma {:induction false} ReadChain(parts: seq<string>, bottom: Assoc<Entry>, name: string)
    ensures Read(Chain(parts, bottom), parts, name) == Read(bottom, [], name)
    decreases |parts|
  {
    if |parts| > 0 {
      var c := Chain(parts, bottom);
      assert c[0].0 == parts[0];
      ReadChain(parts[1..], bottom, name);
    }
  }

  /** Walking along a chain reaches its innermost directory. */
  lemma {:induction false} WalkChain(parts: seq<string>, bottom: Assoc<Entry>)
    ensures Walk(Dir(Chain(parts, bottom)), parts) == Ok(Some(Dir(bottom)))
    decreases |parts|
  {
    if |parts| > 0 {
      var c := Chain(parts, bottom);
      assert c[0].0 == parts[0];
      WalkChain(parts[1..], bottom);
    }
  }

  const DemoDir: string := "/Users/j0c0p72/Downloads/hello/work"
  const DemoFileName: string := "myfile.txt"

  /** On a new file system, `mkdir(d)` for an absolute `d` and then an append
      to a file directly inside `d` leave exactly that file in `d`: reading it
      gives the appended text and listing `d` gives its name. */
  lemma FreshMkdirThenAdd(dir: string, name: string, c: string)
    requires |dir| > 1 && dir[0] == '/'
    requires '/' !in name
    ensures Mkdir(Init(), dir) == Ok(FileSystem(Chain(Tail(dir), [])))
    ensures AddContent(Mkdir(Init(), dir).value, dir + "/" + name, c)
            == Ok(FileSystem(Chain(Tail(dir), [(name, File(c))])))
    ensures ReadContent(FileSystem(Chain(Tail(dir), [(name, File(c))])), dir + "/" + name) == Ok(File(c))
    ensures Ls(FileSystem(Chain(Tail(dir), [(name, File(c))])), dir) == Ok([name])
  {
    var names := Tail(dir);
    AbsoluteSplit(dir);
    assert Split(dir) == [""] + names;
    FileSplitsOf(dir, names, name);
    FreshAdd(dir, names, name, c);
    ChainQueries(dir, names, name, c);
  }

  /** The trees `mkdir` and the append build on a new file system. */
  lemma FreshAdd(dir: string, names: seq<string>, name: string, c: string)
    requires dir != "/" && Tail(dir) == names
    requires Middle(dir + "/" + name) == names && LastPart(dir + "/" + name) == name
    ensures Mkdir(Init(), dir) == Ok(FileSystem(Chain(names, [])))
    ensures AddContent(Mkdir(Init(), dir).value, dir + "/" + name, c)
            == Ok(FileSystem(Chain(names, [(name, File(c))])))
  {
    MakeDirOnEmpty(names);
    var leaf := AppendFile(name, c);
    var none: Assoc<Entry> := [];
    var bottom := [(name, File(c))];
    assert !Has(none, name);
    assert Put(none, name, File(c)) == bottom;
    assert Descend(none, [], leaf) == Ok(bottom);
    DescendChain(names, [], leaf);
  }

  /** Reading the file and listing the directory on the tree `FreshAdd` builds. */
  lemma ChainQueries(dir: string, names: seq<string>, name: string, c: string)
    requires dir != "/" && Tail(dir) == names
    requires Middle(dir + "/" + name) == names && LastPart(dir + "/" + name) == name
    ensures ReadContent(FileSystem(Chain(names, [(name, File(c))])), dir + "/" + name) == Ok(File(c))
    ensures Ls(FileSystem(Chain(names, [(name, File(c))])), dir) == Ok([name])
  {
    var bottom := [(name, File(c))];
    ReadChain(names, bottom, name);
    assert bottom[0].0 == name;
    WalkChain(names, bottom);
    assert Keys(bottom) == [name];
  }

  /** A directory path followed by `/name`: the directory's names, then `name`. */
  lemma FileSplitsOf(dir: string, names: seq<string>, name: string)
    requires Split(dir) == [""] + names
    requires '/' !in name
    ensures Middle(dir + "/" + name) == names
    ensures LastPart(dir + "/" + name) == name
  {
    SplitSnoc(dir, name);
    var parts := [""] + names + [name];
    assert parts[1..|parts| - 1] == names;
  }

  /** The demonstration's directory is an absolute path other than the root,
      and its file name has no separator. */
  lemma DemoPathsFit()
    ensures |DemoDir| > 1 && DemoDir[0] == '/'
    ensures '/' !in DemoFileName
  {
  }

  /** `mkdir` of the demonstration directory, then "Hyunni" appended to
      `myfile.txt` in it: reading the file gives "Hyunni", and listing the
      directory gives the file's name. */
  lemma Demo()
    ensures Mkdir(Init(), DemoDir).Ok?
    ensures AddContent(Mkdir(Init(), DemoDir).value, DemoDir + "/" + DemoFileName, "Hyunni").Ok?
    ensures ReadContent(AddContent(Mkdir(Init(), DemoDir).value, DemoDir + "/" + DemoFileName, "Hyunni").value,
                        DemoDir + "/" + DemoFileName)
            == Ok(File("Hyunni"))
    ensures Ls(AddContent(Mkdir(Init(), DemoDir).value, DemoDir + "/" + DemoFileName, "Hyunni").value, DemoDir)
            == Ok([DemoFileName])
  {
    DemoPathsFit();
    FreshMkdirThenAdd(DemoDir, DemoFileName, "Hyunni");
  }
}
