/** Object storage in an S3 bucket under a base path, listed page by page. */
module S3Storage {
  import opened Text
  import opened LocalStorage

  type Bucket = map<string, Bytes>

  // ---- key translation -----------------------------------------------------

  function FullKey(base: string, key: string): string {
    if base == [] then key else base + "/" + key
  }

  function FullPrefix(base: string, prefix: string): string {
    if base == [] then prefix else if prefix == [] then base + "/" else FullKey(base, prefix)
  }

  function StripBasePath(base: string, full: string): Option<string> {
    if base == [] then Some(full)
    else if base + "/" <= full then Some(full[|base| + 1..])
    else None
  }

  /** Stripping undoes joining, and succeeds on nothing else. */
  lemma StripUndoesFullKey(base: string, full: string, key: string)
    ensures StripBasePath(base, full) == Some(key) <==> full == FullKey(base, key)
  {
    if base != [] {
      var head := base + "/";
      assert FullKey(base, key) == head + key;
      if head <= full { assert full == head + full[|head|..]; }
    }
  }

  /** A full prefix only ever matches keys of this base path, never a sibling's. */
  lemma PrefixStaysInBase(base: string, prefix: string, full: string)
    requires FullPrefix(base, prefix) <= full
    ensures StripBasePath(base, full).Some?
    ensures prefix <= StripBasePath(base, full).value
  {
    if base != [] {
      var head := base + "/";
      assert FullPrefix(base, prefix) == head + prefix;
      assert full == head + full[|head|..];
      assert prefix == (head + prefix)[|head|..];
    }
  }

  /** A full key is the base path, a slash and the key; without a base path it is the key. */
  lemma FullKeyText(base: string, key: string)
    ensures base == [] ==> FullKey(base, key) == key
    ensures var full := FullKey(base, key);
            base != [] ==>
              |full| == |base| + 1 + |key| && base <= full && full[|base|] == '/' && full[|base| + 1..] == key
  {
  }

  /** A full key has the full prefix exactly when the key has the prefix. */
  lemma PrefixDecides(base: string, prefix: string, key: string)
    ensures FullPrefix(base, prefix) <= FullKey(base, key) <==> prefix <= key
  {
    if base != [] {
      var head := base + "/";
      assert FullKey(base, key) == head + key && FullPrefix(base, prefix) == head + prefix;
      CommonHead(head, prefix, key);
    }
  }

  lemma CommonHead(head: string, a: string, b: string)
    ensures head + a <= head + b <==> a <= b
  {
    var x, y := head + a, head + b;
    assert forall i :: 0 <= i < |a| ==> x[|head| + i] == a[i];
    assert forall i :: 0 <= i < |b| ==> y[|head| + i] == b[i];
    if a <= b {
      assert x == y[..|x|];
    }
    if x <= y {
      forall i | 0 <= i < |a| ensures a[i] == b[i] { assert x[|head| + i] == y[|head| + i]; }
      assert a == b[..|a|];
    }
  }

  // ---- single-object operations ------------------------------------------------

  function AfterObjectPut(base: string, bucket: Bucket, key: string, bytes: Bytes): (Bucket, Answer) {
    (bucket[FullKey(base, key) := bytes], Stored)
  }

  function AfterObjectGet(base: string, bucket: Bucket, key: string): Answer {
    if FullKey(base, key) in bucket then Got(bucket[FullKey(base, key)]) else NotFound
  }

  function AfterObjectDelete(base: string, bucket: Bucket, key: string): (Bucket, Answer) {
    (bucket - {FullKey(base, key)}, Deleted)
  }

  function AfterObjectExists(base: string, bucket: Bucket, key: string): Answer {
    Present(FullKey(base, key) in bucket)
  }

  ghost function VisibleKeys(base: string, bucket: Bucket): (keys: set<string>)
    ensures forall key :: key in keys <==> FullKey(base, key) in bucket
  {
    var keys := set full | full in bucket && StripBasePath(base, full).Some? :: StripBasePath(base, full).value;
    StrippedSet(base, bucket, keys);
    keys
  }

  lemma StrippedSet(base: string, bucket: Bucket, keys: set<string>)
    requires keys == set full | full in bucket && StripBasePath(base, full).Some? :: StripBasePath(base, full).value
    ensures forall key :: key in keys <==> FullKey(base, key) in bucket
  {
    forall key ensures key in keys <==> FullKey(base, key) in bucket {
      StripUndoesFullKey(base, FullKey(base, key), key);
      if full :| full in bucket && StripBasePath(base, full) == Some(key) { StripUndoesFullKey(base, full, key); }
    }
  }

  /** What a client of one base path sees: its objects under their own keys. */
  ghost function Visible(base: string, bucket: Bucket): map<string, Bytes> {
    map key | key in VisibleKeys(base, bucket) :: bucket[FullKey(base, key)]
  }

  /** The objects outside the base path. */
  ghost function Foreign(base: string, bucket: Bucket): Bucket {
    map full | full in bucket && StripBasePath(base, full).None? :: bucket[full]
  }

  /** A put is a put on the view and leaves the rest of the bucket alone. */
  lemma PutOnView(base: string, bucket: Bucket, key: string, bytes: Bytes)
    ensures var after := AfterObjectPut(base, bucket, key, bytes).0;
            && Visible(base, after) == Visible(base, bucket)[key := bytes]
            && Foreign(base, after) == Foreign(base, bucket)
  {
    var after := AfterObjectPut(base, bucket, key, bytes).0;
    forall k ensures (k in Visible(base, after) <==> k in Visible(base, bucket)[key := bytes])
                     && (k in Visible(base, after) ==>
                           Visible(base, after)[k] == Visible(base, bucket)[key := bytes][k])
    {
      FullKeyDecides(base, key, k);
    }
    StripUndoesFullKey(base, FullKey(base, key), key);
  }

  /** A delete is a delete on the view and leaves the rest of the bucket alone. */
  lemma DeleteOnView(base: string, bucket: Bucket, key: string)
    ensures var after := AfterObjectDelete(base, bucket, key).0;
            && Visible(base, after) == Visible(base, bucket) - {key}
            && Foreign(base, after) == Foreign(base, bucket)
  {
    var after := AfterObjectDelete(base, bucket, key).0;
    forall k ensures (k in Visible(base, after) <==> k in Visible(base, bucket) - {key})
                     && (k in Visible(base, after) ==> Visible(base, after)[k] == Visible(base, bucket)[k])
    {
      FullKeyDecides(base, key, k);
    }
    StripUndoesFullKey(base, FullKey(base, key), key);
  }

  lemma FullKeyDecides(base: string, a: string, b: string)
    ensures FullKey(base, a) == FullKey(base, b) <==> a == b
  {
    StripUndoesFullKey(base, FullKey(base, a), a);
    StripUndoesFullKey(base, FullKey(base, a), b);
  }

  // ---- pages ----------------------------------------------------------------

  datatype Page = Page(contents: seq<Option<string>>, truncated: Option<bool>, next: Option<string>)

  /** A server's answers to one listing: the pages and the page behind each token. */
  datatype Listing = Listing(pages: seq<Page>, index: map<string, nat>)

  function Keys(contents: seq<Option<string>>): seq<string> {
    if contents == [] then []
    else
      var last := contents[|contents| - 1];
      Keys(contents[..|contents| - 1]) + if last.Some? then [last.value] else []
  }

  function AllKeys(pages: seq<Page>): seq<string> {
    if pages == [] then [] else AllKeys(pages[..|pages| - 1]) + Keys(pages[|pages| - 1].contents)
  }

  predicate Continues(p: Page) { p.truncated == Some(true) && p.next.Some? }

  predicate Linked(l: Listing) {
    && l.pages != []
    && (forall i :: 0 <= i < |l.pages| - 1 ==>
          Continues(l.pages[i]) && l.pages[i].next.value in l.index && l.index[l.pages[i].next.value] == i + 1)
    && !Continues(l.pages[|l.pages| - 1])
  }

  /** The pages split the matching keys in any way: each key once, every page but the
      last pointing to the next. */
  ghost predicate Serves(l: Listing, bucket: Bucket, prefix: string) {
    && Linked(l)
    && NoDuplicates(AllKeys(l.pages))
    && (forall k :: k in AllKeys(l.pages) <==> k in bucket && prefix <= k)
  }

  lemma PageAdds(base: string, pages: seq<Page>, at: nat)
    requires at < |pages|
    ensures Stripped(base, AllKeys(pages[..at + 1]))
            == Stripped(base, AllKeys(pages[..at])) + Stripped(base, Keys(pages[at].contents))
  {
    assert pages[..at + 1][..at] == pages[..at];
    StrippedAppend(base, AllKeys(pages[..at]), Keys(pages[at].contents));
  }

  function Stripped(base: string, fulls: seq<string>): seq<string> {
    if fulls == [] then []
    else
      var s := StripBasePath(base, fulls[|fulls| - 1]);
      Stripped(base, fulls[..|fulls| - 1]) + if s.Some? then [s.value] else []
  }

  lemma {:induction false} StrippedAppend(base: string, a: seq<string>, b: seq<string>)
    ensures Stripped(base, a + b) == Stripped(base, a) + Stripped(base, b)
  {
    if b == [] {
      assert a + b == a;
    } else {
      var n := |b| - 1;
      assert (a + b)[..|a + b| - 1] == a + b[..n];
      StrippedAppend(base, a, b[..n]);
    }
  }

  lemma {:induction false} StrippedMembers(base: string, fulls: seq<string>, key: string)
    ensures key in Stripped(base, fulls) <==> FullKey(base, key) in fulls
  {
    if fulls != [] {
      var n := |fulls| - 1;
      StrippedMembers(base, fulls[..n], key);
      StripUndoesFullKey(base, fulls[n], key);
      assert fulls == fulls[..n] + [fulls[n]];
    }
  }

  lemma {:induction false} StrippedDistinct(base: string, fulls: seq<string>)
    requires NoDuplicates(fulls)
    ensures NoDuplicates(Stripped(base, fulls))
  {
    if fulls != [] {
      var n := |fulls| - 1;
      StrippedDistinct(base, fulls[..n]);
      var s := StripBasePath(base, fulls[n]);
      if s.Some? {
        StripUndoesFullKey(base, fulls[n], s.value);
        StrippedMembers(base, fulls[..n], s.value);
      }
    }
  }

  class S3ObjectStorage {
    const basePath: string
    var bucket: Bucket

    constructor (basePath: string, bucket: Bucket)
      ensures this.basePath == basePath && this.bucket == bucket
    {
      this.basePath := basePath;
      this.bucket := bucket;
    }

    ghost function Objects(): map<string, Bytes>
      reads this
    {
      Visible(basePath, bucket)
    }

    /** The object is there afterwards, all others are as before, and objects of other
        base paths are untouched. */
    method PutFile(key: string, bytes: Bytes) returns (answer: Answer)
      modifies this
      ensures (bucket, answer) == AfterObjectPut(basePath, old(bucket), key, bytes)
      ensures answer == Stored && Objects() == old(Objects())[key := bytes]
      ensures Foreign(basePath, bucket) == Foreign(basePath, old(bucket))
    {
      PutOnView(basePath, bucket, key, bytes);
      bucket := bucket[FullKey(basePath, key) := bytes];
      answer := Stored;
    }

    method GetStream(key: string) returns (answer: Answer)
      ensures answer == AfterObjectGet(basePath, bucket, key)
      ensures answer == if key in Objects() then Got(Objects()[key]) else NotFound
    {
      var full := FullKey(basePath, key);
      if full in bucket {
        return Got(bucket[full]);
      }
      return NotFound;
    }

    /** The object is gone afterwards, whether or not it was there. */
    method Delete(key: string) returns (answer: Answer)
      modifies this
      ensures (bucket, answer) == AfterObjectDelete(basePath, old(bucket), key)
      ensures answer == Deleted && Objects() == old(Objects()) - {key}
      ensures Foreign(basePath, bucket) == Foreign(basePath, old(bucket))
    {
      DeleteOnView(basePath, bucket, key);
      bucket := bucket - {FullKey(basePath, key)};
      answer := Deleted;
    }

    method Exists(key: string) returns (answer: Answer)
      ensures answer == AfterObjectExists(basePath, bucket, key)
      ensures answer == Present(key in Objects())
    {
      answer := Present(FullKey(basePath, key) in bucket);
    }

    /** One page: the keys it names, without the base path. */
    method CollectPage(page: Page, keys: seq<string>) returns (more: seq<string>)
      ensures more == keys + Stripped(basePath, Keys(page.contents))
    {
      more := keys;
      assert Stripped(basePath, Keys([])) == [];
      for i := 0 to |page.contents|
        invariant more == keys + Stripped(basePath, Keys(page.contents[..i]))
      {
        var upTo := page.contents[..i + 1];
        assert upTo[..i] == page.contents[..i];
        ghost var before := Keys(page.contents[..i]);
        match page.contents[i]
        case None => assert Keys(upTo) == before;
        case Some(full) =>
          assert Keys(upTo) == before + [full] && (before + [full])[..|before|] == before;
          var storageKey := StripBasePath(basePath, full);
          if storageKey.Some? {
            more := more + [storageKey.value];
          }
      }
      assert page.contents[..|page.contents|] == page.contents;
    }

    /** However the server cuts its answer into pages, the loop ends and returns, in
        order and each once, exactly the keys whose full key is in the bucket and starts
        with the full prefix. */
    method ListKeys(prefix: string, server: Listing) returns (listed: seq<string>)
      requires Serves(server, bucket, FullPrefix(basePath, prefix))
      ensures StrictlySorted(listed)
      ensures forall key :: key in listed <==> key in Objects() && prefix <= key
      ensures forall full :: full in bucket && FullPrefix(basePath, prefix) <= full ==>
                exists key :: key in listed && full == FullKey(basePath, key)
    {
      var keys := FetchPages(server);
      listed := Sort(keys);
      ListingIsExact(basePath, bucket, prefix, server, keys, listed);
    }

    /** The loop over continuation tokens. */
    method FetchPages(server: Listing) returns (keys: seq<string>)
      requires Linked(server)
      ensures keys == Stripped(basePath, AllKeys(server.pages))
    {
      keys := [];
      var token: Option<string> := None;
      ghost var at := 0;
      while true
        invariant 0 <= at < |server.pages|
        invariant token.Some? ==> token.value in server.index && server.index[token.value] == at
        invariant token.None? ==> at == 0
        invariant keys == Stripped(basePath, AllKeys(server.pages[..at]))
        decreases |server.pages| - at
      {
        var page := if token.None? then server.pages[0] else server.pages[server.index[token.value]];
        PageAdds(basePath, server.pages, at);
        keys := CollectPage(page, keys);
        var truncated := page.truncated == Some(true);
        token := page.next;
        if !truncated || token.None? {
          break;
        }
        at := at + 1;
      }
      assert server.pages[..at + 1] == server.pages;
    }
  }

  lemma ListingIsExact(
    base: string, bucket: Bucket, prefix: string, server: Listing, keys: seq<string>, listed: seq<string>)
    requires Serves(server, bucket, FullPrefix(base, prefix))
    requires keys == Stripped(base, AllKeys(server.pages)) && Sorted(listed) && multiset(listed) == multiset(keys)
    ensures StrictlySorted(listed)
    ensures forall key :: key in listed <==> key in Visible(base, bucket) && prefix <= key
    ensures forall full :: full in bucket && FullPrefix(base, prefix) <= full ==>
              exists key :: key in listed && full == FullKey(base, key)
  {
    StrippedDistinct(base, AllKeys(server.pages));
    SortedDistinct(keys, listed);
    forall key ensures key in listed <==> key in Visible(base, bucket) && prefix <= key {
      StrippedMembers(base, AllKeys(server.pages), key);
      PrefixDecides(base, prefix, key);
    }
    forall full | full in bucket && FullPrefix(base, prefix) <= full
      ensures exists key :: key in listed && full == FullKey(base, key)
    {
      PrefixStaysInBase(base, prefix, full);
      var key := StripBasePath(base, full).value;
      StripUndoesFullKey(base, full, key);
      PrefixDecides(base, prefix, key);
    }
  }
}
