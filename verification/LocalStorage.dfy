/** Object storage in a local directory. Paths are relative to the storage root, so
    the empty path is the root itself; a normalized key is a path of plain names. */
module LocalStorage {
  import opened Text

  type Bytes = seq<bv8>
  type Path = seq<string>

  /** `Special` is anything that is neither a regular file nor a directory. */
  datatype Entry = File(bytes: Bytes) | Directory | Special
  type Tree = map<Path, Entry>

  /** `GotNoFile` is a stream opened on something that is not a regular file; reading it is
      another matter. */
  datatype Answer = Stored | Got(bytes: Bytes) | GotNoFile | Deleted | Present(yes: bool) | NotFound | Failure

  predicate ValidName(name: string) { name != [] && '/' !in name && '\\' !in name }

  predicate ValidKey(key: Path) { key != [] && forall name :: name in key ==> ValidName(name) }

  function Parent(p: Path): Path
    requires p != []
  {
    p[..|p| - 1]
  }

  /** A directory tree: plain names, and every entry inside a directory. */
  ghost predicate WellFormed(tree: Tree) {
    forall p :: p in tree && p != [] ==> ValidKey(p) && Parent(p) in tree && tree[Parent(p)].Directory?
  }

  /** Some proper ancestor exists and is not a directory. */
  predicate Blocked(tree: Tree, p: Path) {
    exists i :: 0 <= i < |p| && p[..i] in tree && !tree[p[..i]].Directory?
  }

  /** Slash-separated text of a path, with backslashes turned into slashes. */
  function KeyText(p: Path): string {
    var text := Join(p, '/');
    seq(|text|, i requires 0 <= i < |text| => if text[i] == '\\' then '/' else text[i])
  }

  lemma {:induction false} JoinCharacters(p: Path, c: char)
    requires c != '/' && forall name :: name in p ==> c !in name
    ensures c !in Join(p, '/')
  {
    if |p| > 1 {
      JoinCharacters(p[1..], c);
    } else if |p| == 1 {
      assert p[0] in p;
    }
  }

  /** Keys and paths determine each other. */
  lemma KeyTextSplits(p: Path)
    requires ValidKey(p)
    ensures KeyText(p) == Join(p, '/') && Split(KeyText(p), '/') == p
  {
    JoinCharacters(p, '\\');
    assert KeyText(p) == Join(p, '/');
    SplitJoin(p, '/');
  }

  // ---- single-object operations ------------------------------------------

  function Ancestors(p: Path): set<Path> { set i | 0 <= i < |p| :: p[..i] }

  /** `create_dir_all` of the parent, then nothing if the target exists, else a copy. */
  function AfterPut(tree: Tree, key: Path, bytes: Bytes): (Tree, Answer) {
    if Blocked(tree, key) then (tree, Failure)
    else
      var made := tree + map p | p in Ancestors(key) :: Directory;
      if key in made then (made, Stored) else (made[key := File(bytes)], Stored)
  }

  /** Every failure to open is reported as not found; a directory can be opened. */
  function AfterGet(tree: Tree, key: Path): Answer {
    if key !in tree then NotFound else if tree[key].File? then Got(tree[key].bytes) else GotNoFile
  }

  /** `remove_file`: a missing object is fine, a directory or a blocked path is not. */
  function AfterDelete(tree: Tree, key: Path): (Tree, Answer) {
    if key !in tree then (tree, if Blocked(tree, key) then Failure else Deleted)
    else if tree[key].Directory? then (tree, Failure)
    else (tree - {key}, Deleted)
  }

  /** `try_exists` sees directories too. */
  function AfterExists(tree: Tree, key: Path): Answer {
    if key in tree then Present(true) else if Blocked(tree, key) then Failure else Present(false)
  }

  // ---- the listing ---------------------------------------------------------

  function FilesUnder(tree: Tree, dir: Path): set<Path> {
    set p | p in tree && tree[p].File? && dir <= p
  }

  lemma {:induction false} AncestorsExist(tree: Tree, p: Path, i: nat)
    requires WellFormed(tree) && p in tree && i <= |p|
    ensures p[..i] in tree && (i < |p| ==> tree[p[..i]].Directory?)
    decreases |p| - i
  {
    if i < |p| {
      AncestorsExist(tree, p, i + 1);
      assert Parent(p[..i + 1]) == p[..i];
    } else {
      assert p[..i] == p;
    }
  }

  ghost predicate OnStack(stack: seq<Path>, p: Path) { exists k :: 0 <= k < |stack| && stack[k] <= p }

  /** Directories still to be read, none inside another. */
  ghost predicate ValidStack(tree: Tree, root: Path, stack: seq<Path>) {
    && (forall k :: 0 <= k < |stack| ==> stack[k] in tree && tree[stack[k]].Directory? && root <= stack[k])
    && (forall k, m :: 0 <= k < |stack| && 0 <= m < |stack| && k != m ==> !(stack[k] <= stack[m]))
  }

  ghost function PendingDirectories(tree: Tree, stack: seq<Path>): set<Path> {
    set p | p in tree && tree[p].Directory? && OnStack(stack, p)
  }

  /** The keys read so far are those of distinct files, and a file is still missing
      exactly when one of the directories to be read is above it. */
  ghost predicate Progress(tree: Tree, root: Path, stack: seq<Path>, found: seq<Path>, keys: seq<string>) {
    && NoDuplicates(found)
    && |keys| == |found| && (forall k :: 0 <= k < |keys| ==> keys[k] == KeyText(found[k]))
    && (forall p :: p in found ==> p in FilesUnder(tree, root))
    && (forall p :: p in FilesUnder(tree, root) ==> (p in found <==> !OnStack(stack, p)))
  }

  /** Reading `dir`, the names `seen` dealt with: the stack holds what it held before
      and subdirectories among those names. */
  ghost predicate ScanStack(tree: Tree, root: Path, dir: Path, rest: seq<Path>, seen: seq<string>, stack: seq<Path>) {
    && dir in tree && tree[dir].Directory? && root <= dir
    && ValidStack(tree, root, stack)
    && (forall k :: 0 <= k < |stack| ==> !(stack[k] <= dir))
    && (forall k :: 0 <= k < |stack| && dir <= stack[k] ==> |stack[k]| == |dir| + 1 && stack[k][|dir|] in seen)
    && (forall p :: p in tree && OnStack(stack, p) ==> OnStack(rest, p) || dir <= p)
  }

  predicate Unseen(dir: Path, seen: seq<string>, p: Path) { dir < p && p[|dir|] !in seen }

  /** The files still missing are below the stack or behind a name not yet seen. */
  ghost predicate ScanFound(tree: Tree, root: Path, dir: Path, seen: seq<string>,
                            stack: seq<Path>, found: seq<Path>, keys: seq<string>)
  {
    && NoDuplicates(found)
    && |keys| == |found| && (forall k :: 0 <= k < |keys| ==> keys[k] == KeyText(found[k]))
    && (forall p :: p in found ==> p in FilesUnder(tree, root))
    && (forall p :: p in FilesUnder(tree, root) ==> (p in found <==> !OnStack(stack, p) && !Unseen(dir, seen, p)))
  }

  lemma ProperlyBelow(tree: Tree, dir: Path, p: Path)
    requires dir in tree && tree[dir].Directory? && p in tree && tree[p].File?
    ensures dir <= p <==> dir < p
  {
    assert |p| == |dir| && dir <= p ==> p == dir;
  }

  lemma ScanStart(tree: Tree, root: Path, dir: Path, rest: seq<Path>, found: seq<Path>, keys: seq<string>)
    requires ValidStack(tree, root, rest + [dir]) && Progress(tree, root, rest + [dir], found, keys)
    ensures ScanStack(tree, root, dir, rest, [], rest) && ScanFound(tree, root, dir, [], rest, found, keys)
  {
    var before := rest + [dir];
    assert before[|rest|] == dir;
    assert forall k :: 0 <= k < |rest| ==> before[k] == rest[k];
    PushSplits(rest, dir);
    forall p | p in FilesUnder(tree, root) ensures dir <= p <==> dir < p { ProperlyBelow(tree, dir, p); }
  }

  /** What the loop body does with one directory entry. */
  function Pushed(tree: Tree, path: Path, stack: seq<Path>): seq<Path>
    requires path in tree
  {
    if tree[path].Directory? then stack + [path] else stack
  }

  function Added<T>(tree: Tree, path: Path, xs: seq<T>, x: T): seq<T>
    requires path in tree
  {
    if tree[path].File? then xs + [x] else xs
  }

  lemma PrefixOfEntry(q: Path, dir: Path, name: string)
    ensures q <= dir + [name] ==> q <= dir || q == dir + [name]
    ensures dir <= dir + [name]
  {
  }

  lemma ScanStepStack(
    tree: Tree, root: Path, dir: Path, rest: seq<Path>, seen: seq<string>, name: string, stack: seq<Path>)
    requires ScanStack(tree, root, dir, rest, seen, stack) && name !in seen && dir + [name] in tree
    ensures ScanStack(tree, root, dir, rest, seen + [name], Pushed(tree, dir + [name], stack))
  {
    var path := dir + [name];
    assert dir <= path && path[|dir|] == name;
    if tree[path].Directory? {
      PushSplits(stack, path);
      PushKeepsValidStack(tree, root, dir, seen, name, stack);
    }
  }

  lemma BehindName(tree: Tree, dir: Path, name: string, p: Path)
    requires WellFormed(tree) && dir + [name] in tree && p in tree && dir < p
    ensures p[|dir|] == name <==> dir + [name] <= p
    ensures dir + [name] <= p ==> tree[dir + [name]].Directory? || p == dir + [name]
  {
    var path := dir + [name];
    assert path[|dir|] == name;
    if p[|dir|] == name {
      assert p[..|path|] == path;
      AncestorsExist(tree, p, |path|);
    }
  }

  lemma ScanStepFound(tree: Tree, root: Path, dir: Path, rest: seq<Path>, seen: seq<string>, name: string,
                      stack: seq<Path>, found: seq<Path>, keys: seq<string>)
    requires WellFormed(tree) && ScanStack(tree, root, dir, rest, seen, stack)
    requires ScanFound(tree, root, dir, seen, stack, found, keys)
    requires name !in seen && dir + [name] in tree
    ensures var path := dir + [name];
            ScanFound(tree, root, dir, seen + [name], Pushed(tree, path, stack),
                      Added(tree, path, found, path), Added(tree, path, keys, KeyText(path)))
  {
    var path := dir + [name];
    assert dir < path && path[|dir|] == name;
    forall p | p in FilesUnder(tree, root)
      ensures p in Added(tree, path, found, path) <==>
                !OnStack(Pushed(tree, path, stack), p) && !Unseen(dir, seen + [name], p)
    {
      ScanStepFile(tree, root, dir, rest, seen, name, stack, found, p);
    }
    assert tree[path].File? ==> path in FilesUnder(tree, root) && Unseen(dir, seen, path);
  }

  lemma ScanStepFile(tree: Tree, root: Path, dir: Path, rest: seq<Path>, seen: seq<string>, name: string,
                     stack: seq<Path>, found: seq<Path>, p: Path)
    requires WellFormed(tree) && ScanStack(tree, root, dir, rest, seen, stack)
    requires name !in seen && dir + [name] in tree && p in tree && tree[p].File?
    requires p in found <==> !OnStack(stack, p) && !Unseen(dir, seen, p)
    ensures var path := dir + [name];
            p in Added(tree, path, found, path) <==>
              !OnStack(Pushed(tree, path, stack), p) && !Unseen(dir, seen + [name], p)
  {
    var path := dir + [name];
    PushSplits(stack, path);
    NothingStackedAbove(tree, root, dir, seen, name, stack);
    assert dir < path && path[|dir|] == name;
    assert path <= p ==> dir < p;
    if dir < p {
      BehindName(tree, dir, name, p);
      assert Unseen(dir, seen + [name], p) <==> Unseen(dir, seen, p) && !(path <= p);
    } else {
      assert !Unseen(dir, seen + [name], p) && !Unseen(dir, seen, p);
    }
  }

  /** An entry of `dir` that was not seen is not below the stack. */
  lemma NothingStackedAbove(tree: Tree, root: Path, dir: Path, seen: seq<string>, name: string, stack: seq<Path>)
    requires name !in seen
    requires forall k :: 0 <= k < |stack| ==> !(stack[k] <= dir)
    requires forall k :: 0 <= k < |stack| && dir <= stack[k] ==> |stack[k]| == |dir| + 1 && stack[k][|dir|] in seen
    ensures !OnStack(stack, dir + [name])
  {
    var path := dir + [name];
    assert path[|dir|] == name;
    forall k | 0 <= k < |stack| ensures !(stack[k] <= path) {
      PrefixOfEntry(stack[k], dir, name);
    }
  }

  lemma PushKeepsValidStack(tree: Tree, root: Path, dir: Path, seen: seq<string>, name: string, stack: seq<Path>)
    requires ValidStack(tree, root, stack) && root <= dir && name !in seen
    requires dir + [name] in tree && tree[dir + [name]].Directory?
    requires forall k :: 0 <= k < |stack| ==> !(stack[k] <= dir)
    requires forall k :: 0 <= k < |stack| && dir <= stack[k] ==> |stack[k]| == |dir| + 1 && stack[k][|dir|] in seen
    ensures ValidStack(tree, root, stack + [dir + [name]])
  {
    var path := dir + [name];
    assert path[|dir|] == name;
    forall k | 0 <= k < |stack| ensures !(stack[k] <= path) && !(path <= stack[k]) {
      PrefixOfEntry(stack[k], dir, name);
    }
  }

  lemma ScanStep(tree: Tree, root: Path, dir: Path, rest: seq<Path>, names: seq<string>, j: nat,
                 stack: seq<Path>, found: seq<Path>, keys: seq<string>)
    requires WellFormed(tree) && j < |names| && NoDuplicates(names) && dir + [names[j]] in tree
    requires ScanStack(tree, root, dir, rest, names[..j], stack)
    requires ScanFound(tree, root, dir, names[..j], stack, found, keys)
    ensures var path := dir + [names[j]];
            && ScanStack(tree, root, dir, rest, names[..j + 1], Pushed(tree, path, stack))
            && ScanFound(tree, root, dir, names[..j + 1], Pushed(tree, path, stack),
                         Added(tree, path, found, path), Added(tree, path, keys, KeyText(path)))
  {
    assert names[..j + 1] == names[..j] + [names[j]];
    ScanStepStack(tree, root, dir, rest, names[..j], names[j], stack);
    ScanStepFound(tree, root, dir, rest, names[..j], names[j], stack, found, keys);
  }

  lemma ScanEnd(tree: Tree, root: Path, dir: Path, rest: seq<Path>, names: seq<string>,
                stack: seq<Path>, found: seq<Path>, keys: seq<string>)
    requires WellFormed(tree) && ScanStack(tree, root, dir, rest, names, stack)
    requires ScanFound(tree, root, dir, names, stack, found, keys)
    requires forall name :: dir + [name] in tree ==> name in names
    ensures Progress(tree, root, stack, found, keys)
  {
    forall p | p in FilesUnder(tree, root) ensures !Unseen(dir, names, p) {
      if dir < p { ChildExists(tree, dir, p); }
    }
  }

  lemma ChildExists(tree: Tree, dir: Path, p: Path)
    requires WellFormed(tree) && p in tree && dir < p
    ensures dir + [p[|dir|]] in tree
  {
    AncestorsExist(tree, p, |dir| + 1);
    assert p[..|dir| + 1] == dir + [p[|dir|]];
  }

  lemma ScanShrinks(tree: Tree, root: Path, dir: Path, rest: seq<Path>, names: seq<string>, stack: seq<Path>)
    requires ScanStack(tree, root, dir, rest, names, stack)
    ensures PendingDirectories(tree, stack) < PendingDirectories(tree, rest + [dir])
  {
    PushSplits(rest, dir);
    assert dir in PendingDirectories(tree, rest + [dir]) && dir !in PendingDirectories(tree, stack);
  }

  class LocalObjectStorage {
    var tree: Tree

    constructor (tree: Tree)
      ensures this.tree == tree
    {
      this.tree := tree;
    }

    method PutFile(key: Path, bytes: Bytes) returns (answer: Answer)
      modifies this
      ensures (tree, answer) == AfterPut(old(tree), key, bytes)
    {
      if Blocked(tree, key) {
        return Failure;
      }
      tree := tree + map p | p in Ancestors(key) :: Directory;
      if key !in tree {
        tree := tree[key := File(bytes)];
      }
      return Stored;
    }

    method GetStream(key: Path) returns (answer: Answer)
      ensures answer == AfterGet(tree, key)
    {
      if key in tree {
        match tree[key]
        case File(bytes) => return Got(bytes);
        case Directory => return GotNoFile;
        case Special => return GotNoFile;
      }
      return NotFound;
    }

    method Delete(key: Path) returns (answer: Answer)
      modifies this
      ensures (tree, answer) == AfterDelete(old(tree), key)
    {
      if key in tree {
        if tree[key].Directory? {
          return Failure;
        }
        tree := tree - {key};
        return Deleted;
      }
      return if Blocked(tree, key) then Failure else Deleted;
    }

    method Exists(key: Path) returns (answer: Answer)
      ensures answer == AfterExists(tree, key)
    {
      if key in tree {
        return Present(true);
      }
      return if Blocked(tree, key) then Failure else Present(false);
    }

    /** The names in a directory, in whatever order the system gives them. */
    method ReadDir(dir: Path) returns (names: seq<string>)
      ensures NoDuplicates(names) && forall name :: name in names <==> dir + [name] in tree
    {
      var left := set p | p in tree && |p| == |dir| + 1 && dir <= p :: p[|dir|];
      ghost var all := left;
      forall name ensures name in all <==> dir + [name] in tree {
        if dir + [name] in tree {
          assert (dir + [name])[|dir|] == name;
        }
        if name in all {
          var p :| p in tree && |p| == |dir| + 1 && dir <= p && p[|dir|] == name;
          assert p == dir + [name];
        }
      }
      names := [];
      while left != {}
        invariant NoDuplicates(names)
        invariant forall name :: name in all <==> name in names || name in left
        invariant forall name :: name in names ==> name !in left
        decreases left
      {
        var name :| name in left;
        names := names + [name];
        left := left - {name};
      }
    }

    /** One round of the listing loop: read a directory, push its subdirectories, add
        the keys of its files and skip everything else. */
    method ScanDirectory(ghost root: Path, dir: Path, rest: seq<Path>, seen: seq<string>, ghost had: seq<Path>)
      returns (stack: seq<Path>, keys: seq<string>, ghost found: seq<Path>)
      requires WellFormed(tree)
      requires ValidStack(tree, root, rest + [dir]) && Progress(tree, root, rest + [dir], had, seen)
      ensures ValidStack(tree, root, stack) && Progress(tree, root, stack, found, keys)
      ensures PendingDirectories(tree, stack) < PendingDirectories(tree, rest + [dir])
    {
      var names := ReadDir(dir);
      stack, keys, found := rest, seen, had;
      ScanStart(tree, root, dir, rest, found, keys);
      assert names[..0] == [];
      for j := 0 to |names|
        invariant ScanStack(tree, root, dir, rest, names[..j], stack)
        invariant ScanFound(tree, root, dir, names[..j], stack, found, keys)
      {
        assert names[j] in names;
        ScanStep(tree, root, dir, rest, names, j, stack, found, keys);
        var path := dir + [names[j]];
        if tree[path].Directory? {
          stack := stack + [path];
        } else if tree[path].File? {
          keys := keys + [KeyText(path)];
          found := found + [path];
        }
      }
      assert names[..|names|] == names;
      ScanEnd(tree, root, dir, rest, names, stack, found, keys);
      ScanShrinks(tree, root, dir, rest, names, stack);
    }

    /** The keys of exactly the regular files under the prefix directory, each once, in
        order; a missing prefix is an empty listing and a prefix that is not a directory
        an error. */
    method ListKeys(prefix: Path) returns (listed: Option<seq<string>>)
      requires WellFormed(tree)
      ensures listed.None? <==> (if prefix in tree then !tree[prefix].Directory? else Blocked(tree, prefix))
      ensures listed.Some? ==> StrictlySorted(listed.value) && ListsExactly(listed.value, FilesUnder(tree, prefix))
    {
      if prefix !in tree {
        NothingUnderMissing(tree, prefix);
        return if Blocked(tree, prefix) then None else Some([]);
      }
      if !tree[prefix].Directory? {
        return None;
      }
      var keys: seq<string>, stack: seq<Path> := [], [prefix];
      ghost var found: seq<Path> := [];
      assert forall p :: p in FilesUnder(tree, prefix) ==> stack[0] <= p && OnStack(stack, p);
      while stack != []
        invariant ValidStack(tree, prefix, stack) && Progress(tree, prefix, stack, found, keys)
        decreases PendingDirectories(tree, stack)
      {
        var dir := stack[|stack| - 1];
        assert stack == stack[..|stack| - 1] + [dir];
        stack, keys, found := ScanDirectory(prefix, dir, stack[..|stack| - 1], keys, found);
      }
      var sorted := Sort(keys);
      FinishedListing(tree, prefix, found, keys, sorted);
      listed := Some(sorted);
    }
  }

  ghost predicate ListsExactly(keys: seq<string>, files: set<Path>) {
    forall key :: key in keys <==> exists p :: p in files && key == KeyText(p)
  }

  lemma NothingUnderMissing(tree: Tree, prefix: Path)
    requires WellFormed(tree) && prefix !in tree
    ensures FilesUnder(tree, prefix) == {}
  {
    forall p | p in tree ensures !(prefix <= p) {
      if prefix <= p {
        assert p[..|prefix|] == prefix;
        AncestorsExist(tree, p, |prefix|);
      }
    }
  }

  lemma FinishedListing(tree: Tree, root: Path, found: seq<Path>, keys: seq<string>, sorted: seq<string>)
    requires WellFormed(tree) && root in tree && tree[root].Directory?
    requires Progress(tree, root, [], found, keys)
    requires Sorted(sorted) && multiset(sorted) == multiset(keys)
    ensures StrictlySorted(sorted) && ListsExactly(sorted, FilesUnder(tree, root))
  {
    KeysAreDistinct(tree, root, found, keys);
    SortedDistinct(keys, sorted);
    forall key ensures key in sorted <==> exists p :: p in FilesUnder(tree, root) && key == KeyText(p) {
      if key in sorted {
        var k :| 0 <= k < |keys| && keys[k] == key;
        assert found[k] in found;
      }
      if p :| p in FilesUnder(tree, root) && key == KeyText(p) {
        assert p in found;
        var k :| 0 <= k < |found| && found[k] == p;
        assert keys[k] in keys;
      }
    }
  }

  lemma PushSplits(stack: seq<Path>, path: Path)
    ensures forall p :: OnStack(stack + [path], p) <==> OnStack(stack, p) || path <= p
  {
    var pushed := stack + [path];
    forall p ensures OnStack(pushed, p) <==> OnStack(stack, p) || path <= p {
      if OnStack(stack, p) {
        var k :| 0 <= k < |stack| && stack[k] <= p;
        assert pushed[k] <= p;
      }
      if path <= p { assert pushed[|stack|] <= p; }
      if OnStack(pushed, p) && !(path <= p) {
        var k :| 0 <= k < |pushed| && pushed[k] <= p;
        assert stack[k] <= p;
      }
    }
  }

  lemma KeysAreDistinct(tree: Tree, root: Path, found: seq<Path>, keys: seq<string>)
    requires WellFormed(tree) && root in tree && tree[root].Directory?
    requires Progress(tree, root, [], found, keys)
    ensures NoDuplicates(keys)
  {
    forall i, j | 0 <= i < j < |keys| ensures keys[i] != keys[j] {
      assert found[i] in found && found[j] in found;
      KeyTextSplits(found[i]);
      KeyTextSplits(found[j]);
    }
  }
}
