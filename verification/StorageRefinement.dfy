/** Both backends against one map from keys to contents, and against each other. */
module StorageRefinement {
  import opened Text
  import opened LocalStorage
  import opened S3Storage

  datatype Op = Put(key: Path, bytes: Bytes) | Get(key: Path) | Delete(key: Path) | Exists(key: Path)

  type Store = map<Path, Bytes>

  function LocalStep(tree: Tree, op: Op): (Tree, Answer) {
    match op
    case Put(key, bytes) => AfterPut(tree, key, bytes)
    case Get(key) => (tree, AfterGet(tree, key))
    case Delete(key) => AfterDelete(tree, key)
    case Exists(key) => (tree, AfterExists(tree, key))
  }

  function S3Step(base: string, bucket: Bucket, op: Op): (Bucket, Answer) {
    match op
    case Put(key, bytes) => AfterObjectPut(base, bucket, KeyText(key), bytes)
    case Get(key) => (bucket, AfterObjectGet(base, bucket, KeyText(key)))
    case Delete(key) => AfterObjectDelete(base, bucket, KeyText(key))
    case Exists(key) => (bucket, AfterObjectExists(base, bucket, KeyText(key)))
  }

  function MapStep(store: Store, op: Op): (Store, Answer) {
    match op
    case Put(key, bytes) => (store[key := bytes], Stored)
    case Get(key) => (store, if key in store then Got(store[key]) else NotFound)
    case Delete(key) => (store - {key}, Deleted)
    case Exists(key) => (store, Present(key in store))
  }

  function LocalRun(tree: Tree, ops: seq<Op>): (Tree, seq<Answer>)
    decreases |ops|
  {
    if ops == [] then (tree, [])
    else
      var (tree', answer) := LocalStep(tree, ops[0]);
      var (end, answers) := LocalRun(tree', ops[1..]);
      (end, [answer] + answers)
  }

  function S3Run(base: string, bucket: Bucket, ops: seq<Op>): (Bucket, seq<Answer>)
    decreases |ops|
  {
    if ops == [] then (bucket, [])
    else
      var (bucket', answer) := S3Step(base, bucket, ops[0]);
      var (end, answers) := S3Run(base, bucket', ops[1..]);
      (end, [answer] + answers)
  }

  function MapRun(store: Store, ops: seq<Op>): (Store, seq<Answer>)
    decreases |ops|
  {
    if ops == [] then (store, [])
    else
      var (store', answer) := MapStep(store, ops[0]);
      var (end, answers) := MapRun(store', ops[1..]);
      (end, [answer] + answers)
  }

  // ---- S3 refines the map, always -------------------------------------------

  ghost predicate BucketHolds(base: string, bucket: Bucket, store: Store) {
    && (forall key :: key in store ==> ValidKey(key))
    && (forall key :: ValidKey(key) ==> (FullKey(base, KeyText(key)) in bucket <==> key in store))
    && (forall key :: key in store ==> bucket[FullKey(base, KeyText(key))] == store[key])
  }

  lemma FullKeyInjective(base: string, a: Path, b: Path)
    requires ValidKey(a) && ValidKey(b)
    ensures FullKey(base, KeyText(a)) == FullKey(base, KeyText(b)) ==> a == b
  {
    var full := FullKey(base, KeyText(a));
    StripUndoesFullKey(base, full, KeyText(a));
    StripUndoesFullKey(base, full, KeyText(b));
    KeyTextSplits(a);
    KeyTextSplits(b);
  }

  lemma S3StepRefines(base: string, bucket: Bucket, store: Store, op: Op)
    requires BucketHolds(base, bucket, store) && ValidKey(op.key)
    ensures var (bucket', answer) := S3Step(base, bucket, op);
            var (store', expected) := MapStep(store, op);
            answer == expected && BucketHolds(base, bucket', store')
  {
    var full := FullKey(base, KeyText(op.key));
    forall key | ValidKey(key) && key != op.key ensures FullKey(base, KeyText(key)) != full {
      FullKeyInjective(base, key, op.key);
    }
  }

  lemma {:induction false} S3RunRefines(base: string, bucket: Bucket, store: Store, ops: seq<Op>)
    requires BucketHolds(base, bucket, store) && forall op :: op in ops ==> ValidKey(op.key)
    ensures S3Run(base, bucket, ops).1 == MapRun(store, ops).1
    ensures BucketHolds(base, S3Run(base, bucket, ops).0, MapRun(store, ops).0)
    decreases |ops|
  {
    if ops != [] {
      assert ops[0] in ops;
      S3StepRefines(base, bucket, store, ops[0]);
      S3RunRefines(base, S3Step(base, bucket, ops[0]).0, MapStep(store, ops[0]).0, ops[1..]);
    }
  }

  // ---- the local tree refines it over content-addressed, prefix-free keys ------

  /** The puts a client may send, as pairs of key and bytes. */
  type Puts = iset<(Path, Bytes)>

  ghost predicate Known(puts: Puts, key: Path) { exists bytes :: (key, bytes) in puts }

  ghost predicate Covers(puts: Puts, ops: seq<Op>) {
    forall op :: op in ops ==> Known(puts, op.key) && (op.Put? ==> (op.key, op.bytes) in puts)
  }

  ghost predicate ValidPuts(puts: Puts) { forall key :: Known(puts, key) ==> ValidKey(key) }

  /** No key is a directory on the way to another. */
  ghost predicate PrefixFree(puts: Puts) {
    forall a, b :: Known(puts, a) && Known(puts, b) ==> !(a < b)
  }

  /** A key determines the bytes put under it. */
  ghost predicate ContentAddressed(puts: Puts) {
    forall key, b, c :: (key, b) in puts && (key, c) in puts ==> b == c
  }

  ghost predicate TreeHolds(puts: Puts, tree: Tree, store: Store) {
    && (forall key :: key in store ==> (key, store[key]) in puts && key in tree && tree[key] == File(store[key]))
    && (forall p :: p in tree ==> p in store || (tree[p].Directory? && OnTheWay(puts, p)))
  }

  ghost predicate OnTheWay(puts: Puts, p: Path) { exists key :: Known(puts, key) && p < key }

  lemma NeverBlocked(puts: Puts, tree: Tree, store: Store, key: Path)
    requires PrefixFree(puts) && TreeHolds(puts, tree, store) && Known(puts, key)
    ensures !Blocked(tree, key)
    ensures key in tree <==> key in store
  {
    forall i | 0 <= i < |key| && key[..i] in tree ensures tree[key[..i]].Directory? {
      assert key[..i] < key;
      assert key[..i] in store ==> Known(puts, key[..i]);
    }
  }

  lemma LocalStepRefines(puts: Puts, tree: Tree, store: Store, op: Op)
    requires PrefixFree(puts) && ContentAddressed(puts) && TreeHolds(puts, tree, store)
    requires Known(puts, op.key) && (op.Put? ==> (op.key, op.bytes) in puts)
    ensures var (tree', answer) := LocalStep(tree, op);
            var (store', expected) := MapStep(store, op);
            answer == expected && TreeHolds(puts, tree', store')
  {
    NeverBlocked(puts, tree, store, op.key);
    if op.Put? { PutRefines(puts, tree, store, op.key, op.bytes); }
  }

  lemma PutRefines(puts: Puts, tree: Tree, store: Store, key: Path, bytes: Bytes)
    requires PrefixFree(puts) && ContentAddressed(puts) && TreeHolds(puts, tree, store) && (key, bytes) in puts
    ensures AfterPut(tree, key, bytes).1 == Stored
    ensures TreeHolds(puts, AfterPut(tree, key, bytes).0, store[key := bytes])
  {
    assert Known(puts, key);
    NeverBlocked(puts, tree, store, key);
    assert key !in Ancestors(key);
    forall p | p in Ancestors(key) ensures p !in store && OnTheWay(puts, p) {
      assert p < key;
      assert p in store ==> Known(puts, p);
    }
    var made := tree + map p | p in Ancestors(key) :: Directory;
    assert TreeHolds(puts, made, store);
    if key in made {
      assert store[key := bytes] == store;
    } else {
      FilePutRefines(puts, made, store, key, bytes);
    }
  }

  lemma FilePutRefines(puts: Puts, tree: Tree, store: Store, key: Path, bytes: Bytes)
    requires TreeHolds(puts, tree, store) && (key, bytes) in puts && key !in tree
    ensures TreeHolds(puts, tree[key := File(bytes)], store[key := bytes])
  {
  }

  lemma {:induction false} LocalRunRefines(puts: Puts, tree: Tree, store: Store, ops: seq<Op>)
    requires PrefixFree(puts) && ContentAddressed(puts) && TreeHolds(puts, tree, store) && Covers(puts, ops)
    ensures LocalRun(tree, ops).1 == MapRun(store, ops).1
    ensures TreeHolds(puts, LocalRun(tree, ops).0, MapRun(store, ops).0)
    decreases |ops|
  {
    if ops != [] {
      assert ops[0] in ops;
      LocalStepRefines(puts, tree, store, ops[0]);
      LocalRunRefines(puts, LocalStep(tree, ops[0]).0, MapStep(store, ops[0]).0, ops[1..]);
    }
  }

  // ---- when the two backends agree ---------------------------------------------

  ghost predicate AlwaysAgree(base: string, puts: Puts) {
    forall ops :: Covers(puts, ops) ==> LocalRun(map[], ops).1 == S3Run(base, map[], ops).1
  }

  /** From empty storage the two backends answer every run of put, get, delete and
      exists alike exactly when no key is a directory of another and every key always
      carries the same bytes. */
  lemma BackendsAgreeExactly(base: string, puts: Puts)
    requires ValidPuts(puts)
    ensures AlwaysAgree(base, puts) <==> PrefixFree(puts) && ContentAddressed(puts)
  {
    if PrefixFree(puts) && ContentAddressed(puts) {
      forall ops | Covers(puts, ops) ensures LocalRun(map[], ops).1 == S3Run(base, map[], ops).1 {
        LocalRunRefines(puts, map[], map[], ops);
        S3RunRefines(base, map[], map[], ops);
      }
    }
    if !PrefixFree(puts) {
      var a, b :| Known(puts, a) && Known(puts, b) && a < b;
      var bytes :| (b, bytes) in puts;
      NestedKeysDisagree(base, a, b, bytes);
      assert Covers(puts, [Put(b, bytes), Exists(a)]);
    }
    if !ContentAddressed(puts) {
      var key, b, c :| (key, b) in puts && (key, c) in puts && b != c;
      assert Known(puts, key);
      RewrittenKeyDisagrees(base, key, b, c);
      assert Covers(puts, [Put(key, b), Put(key, c), Get(key)]);
    }
  }

  lemma FirstStep(base: string, tree: Tree, bucket: Bucket, op: Op, ops: seq<Op>)
    ensures LocalRun(tree, [op] + ops).1 == [LocalStep(tree, op).1] + LocalRun(LocalStep(tree, op).0, ops).1
    ensures S3Run(base, bucket, [op] + ops).1
            == [S3Step(base, bucket, op).1] + S3Run(base, S3Step(base, bucket, op).0, ops).1
  {
    assert ([op] + ops)[1..] == ops;
  }

  /** Runs that answer differently at their last step answer differently. */
  lemma LastStep(base: string, tree: Tree, bucket: Bucket, op: Op)
    requires LocalStep(tree, op).1 != S3Step(base, bucket, op).1
    ensures LocalRun(tree, [op]).1 != S3Run(base, bucket, [op]).1
  {
    FirstStep(base, tree, bucket, op, []);
    assert [op] + [] == [op];
    assert LocalRun(tree, [op]).1[0] != S3Run(base, bucket, [op]).1[0];
  }

  lemma EarlierStep(base: string, tree: Tree, bucket: Bucket, op: Op, ops: seq<Op>)
    requires LocalRun(LocalStep(tree, op).0, ops).1 != S3Run(base, S3Step(base, bucket, op).0, ops).1
    ensures LocalRun(tree, [op] + ops).1 != S3Run(base, bucket, [op] + ops).1
  {
    FirstStep(base, tree, bucket, op, ops);
    var l, r := LocalRun(tree, [op] + ops).1, S3Run(base, bucket, [op] + ops).1;
    assert l[1..] != r[1..];
  }

  lemma NestedKeysDisagree(base: string, a: Path, b: Path, bytes: Bytes)
    requires ValidKey(a) && ValidKey(b) && a < b
    ensures LocalRun(map[], [Put(b, bytes), Exists(a)]).1 != S3Run(base, map[], [Put(b, bytes), Exists(a)]).1
  {
    var put, ask := Put(b, bytes), Exists(a);
    assert a == b[..|a|] && a in Ancestors(b);
    FullKeyInjective(base, a, b);
    LastStep(base, LocalStep(map[], put).0, S3Step(base, map[], put).0, ask);
    EarlierStep(base, map[], map[], put, [ask]);
    assert [put] + [ask] == [put, ask];
  }

  lemma RewrittenKeyDisagrees(base: string, key: Path, b: Bytes, c: Bytes)
    requires ValidKey(key) && b != c
    ensures LocalRun(map[], [Put(key, b), Put(key, c), Get(key)]).1
            != S3Run(base, map[], [Put(key, b), Put(key, c), Get(key)]).1
  {
    var first, second, ask := Put(key, b), Put(key, c), Get(key);
    assert key !in Ancestors(key);
    var (t1, u1) := (LocalStep(map[], first).0, S3Step(base, map[], first).0);
    var (t2, u2) := (LocalStep(t1, second).0, S3Step(base, u1, second).0);
    assert t1[key] == t2[key] == File(b);
    LastStep(base, t2, u2, ask);
    EarlierStep(base, t1, u1, second, [ask]);
    assert [second] + [ask] == [second, ask];
    EarlierStep(base, map[], map[], first, [second, ask]);
    assert [first] + [second, ask] == [first, second, ask];
  }

  // ---- what no run does ----------------------------------------------------------------

  /** An operation on the tree fails exactly when something that is not a directory stands on
      the way to its key, or when it would delete a directory; a get never does. */
  lemma LocalFailsExactly(tree: Tree, op: Op)
    requires WellFormed(tree)
    ensures LocalStep(tree, op).1 == Failure <==>
              || (!op.Get? && exists q :: q < op.key && q in tree && tree[q] != Directory)
              || (op.Delete? && op.key in tree && tree[op.key] == Directory)
  {
    if q :| q < op.key && q in tree && tree[q] != Directory {
      assert q == op.key[..|q|] && Blocked(tree, op.key);
      if op.key in tree { AncestorsExist(tree, op.key, |q|); }
    }
    if Blocked(tree, op.key) {
      var i :| 0 <= i < |op.key| && op.key[..i] in tree && !tree[op.key[..i]].Directory?;
      assert op.key[..i] < op.key;
    }
  }

  lemma StepKeepsFile(tree: Tree, op: Op, key: Path)
    requires key in tree && tree[key].File? && op != Delete(key)
    ensures var next := LocalStep(tree, op).0; key in next && next[key] == tree[key]
  {
  }

  /** Without any condition on the keys: no run loses or changes a stored file that it does not
      delete by name. */
  lemma {:induction false} FilesSurvive(tree: Tree, ops: seq<Op>, key: Path)
    requires key in tree && tree[key].File? && Delete(key) !in ops
    ensures var end := LocalRun(tree, ops).0; key in end && end[key] == tree[key]
    decreases |ops|
  {
    if ops != [] {
      assert ops[0] in ops;
      StepKeepsFile(tree, ops[0], key);
      FilesSurvive(LocalStep(tree, ops[0]).0, ops[1..], key);
    }
  }

  // ---- listing after any run -----------------------------------------------------

  lemma PutKeepsWellFormed(tree: Tree, key: Path, bytes: Bytes)
    requires WellFormed(tree) && ValidKey(key)
    ensures WellFormed(AfterPut(tree, key, bytes).0)
  {
    if !Blocked(tree, key) {
      var made := tree + map p | p in Ancestors(key) :: Directory;
      MadeIsWellFormed(tree, key, made);
      assert Parent(key) == key[..|key| - 1] && Parent(key) in Ancestors(key);
      if key !in made { FileKeepsWellFormed(made, key, bytes); }
    }
  }

  lemma MadeIsWellFormed(tree: Tree, key: Path, made: Tree)
    requires WellFormed(tree) && ValidKey(key) && !Blocked(tree, key)
    requires made == tree + map p | p in Ancestors(key) :: Directory
    ensures WellFormed(made)
  {
    forall p | p in Ancestors(key) && p != [] ensures ValidKey(p) && Parent(p) in Ancestors(key) {
      var i :| 0 <= i < |key| && p == key[..i];
      assert Parent(p) == key[..i - 1];
    }
  }

  lemma FileKeepsWellFormed(tree: Tree, key: Path, bytes: Bytes)
    requires WellFormed(tree) && ValidKey(key) && key !in tree && Parent(key) in tree && tree[Parent(key)].Directory?
    ensures WellFormed(tree[key := File(bytes)])
  {
  }

  lemma {:induction false} RunKeepsWellFormed(tree: Tree, ops: seq<Op>)
    requires WellFormed(tree) && forall op :: op in ops ==> ValidKey(op.key)
    ensures WellFormed(LocalRun(tree, ops).0)
    decreases |ops|
  {
    if ops != [] {
      assert ops[0] in ops;
      var tree' := LocalStep(tree, ops[0]).0;
      match ops[0] {
        case Put(key, bytes) => PutKeepsWellFormed(tree, key, bytes);
        case Delete(key) => DeleteKeepsWellFormed(tree, key);
        case Get(_) =>
        case Exists(_) =>
      }
      RunKeepsWellFormed(tree', ops[1..]);
    }
  }

  lemma DeleteKeepsWellFormed(tree: Tree, key: Path)
    requires WellFormed(tree)
    ensures WellFormed(AfterDelete(tree, key).0)
  {
  }

  /** After any covered run the tree is well formed and the files under a prefix
      directory are the stored keys below it, so a listing lists exactly those. */
  lemma ListingMatchesStore(puts: Puts, ops: seq<Op>, prefix: Path)
    requires ValidPuts(puts) && PrefixFree(puts) && ContentAddressed(puts) && Covers(puts, ops)
    ensures var (tree, store) := (LocalRun(map[], ops).0, MapRun(map[], ops).0);
            && WellFormed(tree)
            && FilesUnder(tree, prefix) == set key | key in store && prefix <= key
  {
    RunKeepsWellFormed(map[], ops);
    LocalRunRefines(puts, map[], map[], ops);
  }
}
