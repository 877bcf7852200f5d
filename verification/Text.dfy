/** Strings as the services use them: splitting and joining on one character,
    trimming, ASCII case, and the code-point order of Rust's `String`. */
module Text {

  datatype Option<+T> = None | Some(value: T)

  // ---- splitting and joining -------------------------------------------

  /** Rust's `str::split(char)`: n separators give n + 1 pieces. */
  function Split(s: string, sep: char): (parts: seq<string>)
    ensures |parts| >= 1
  {
    if s == [] then [[]] else Glue(s[0], sep, Split(s[1..], sep))
  }

  /** One more character in front: a new empty piece, or a longer first piece. */
  function Glue(c: char, sep: char, rest: seq<string>): (parts: seq<string>)
    requires rest != []
    ensures |parts| >= 1
  {
    if c == sep then [[]] + rest else [[c] + rest[0]] + rest[1..]
  }

  lemma GlueAppend(c: char, sep: char, left: seq<string>, right: seq<string>)
    requires left != []
    ensures Glue(c, sep, left + right) == Glue(c, sep, left) + right
  {
    assert (left + right)[1..] == left[1..] + right;
  }

  function Join(parts: seq<string>, sep: char): string {
    if parts == [] then []
    else if |parts| == 1 then parts[0]
    else parts[0] + [sep] + Join(parts[1..], sep)
  }

  lemma {:induction false} JoinSplit(s: string, sep: char)
    ensures Join(Split(s, sep), sep) == s
  {
    if s != [] {
      var rest := Split(s[1..], sep);
      JoinSplit(s[1..], sep);
      if s[0] == sep {
        assert ([[]] + rest)[1..] == rest;
      } else {
        var parts := [[s[0]] + rest[0]] + rest[1..];
        if |rest| > 1 {
          assert parts[1..] == rest[1..];
        }
      }
    }
  }

  lemma {:induction false} SplitClean(s: string, sep: char)
    requires sep !in s
    ensures Split(s, sep) == [s]
  {
    if s != [] {
      SplitClean(s[1..], sep);
      assert s == [s[0]] + s[1..];
    }
  }

  /** A separator cuts the split in two, whatever stands on either side. */
  lemma {:induction false} SplitAt(a: string, sep: char, b: string)
    ensures Split(a + [sep] + b, sep) == Split(a, sep) + Split(b, sep)
  {
    var s := a + [sep] + b;
    if a == [] {
      assert s[1..] == b;
    } else {
      SplitAt(a[1..], sep, b);
      assert s[1..] == a[1..] + [sep] + b;
      GlueAppend(a[0], sep, Split(a[1..], sep), Split(b, sep));
    }
  }

  lemma {:induction false} SplitJoin(parts: seq<string>, sep: char)
    requires parts != [] && forall p :: p in parts ==> sep !in p
    ensures Split(Join(parts, sep), sep) == parts
  {
    SplitClean(parts[0], sep);
    if |parts| > 1 {
      SplitJoin(parts[1..], sep);
      SplitAt(parts[0], sep, Join(parts[1..], sep));
    }
  }

  lemma {:induction false} JoinAppend(a: seq<string>, b: seq<string>, sep: char)
    requires a != [] && b != []
    ensures Join(a + b, sep) == Join(a, sep) + [sep] + Join(b, sep)
  {
    if |a| == 1 {
      assert (a + b)[1..] == b;
    } else {
      JoinAppend(a[1..], b, sep);
      assert (a + b)[1..] == a[1..] + b;
    }
  }

  // ---- whitespace and case ---------------------------------------------

  /** Unicode `White_Space`, the set behind Rust's `char::is_whitespace`. */
  predicate IsSpace(c: char) {
    var n := c as int;
    0x09 <= n <= 0x0D || n == 0x20 || n == 0x85 || n == 0xA0 || n == 0x1680 || 0x2000 <= n <= 0x200A
    || n == 0x2028 || n == 0x2029 || n == 0x202F || n == 0x205F || n == 0x3000
  }

  function TrimStart(s: string): string {
    if s != [] && IsSpace(s[0]) then TrimStart(s[1..]) else s
  }

  function TrimEnd(s: string): string {
    if s != [] && IsSpace(s[|s| - 1]) then TrimEnd(s[..|s| - 1]) else s
  }

  function Trim(s: string): string { TrimEnd(TrimStart(s)) }

  predicate Trimmed(s: string) {
    s == [] || (!IsSpace(s[0]) && !IsSpace(s[|s| - 1]))
  }

  lemma {:induction false} TrimStartSuffix(s: string)
    ensures var t := TrimStart(s); |t| <= |s| && t == s[|s| - |t|..] && (t == [] || !IsSpace(t[0]))
  {
    if s != [] && IsSpace(s[0]) {
      TrimStartSuffix(s[1..]);
    }
  }

  lemma {:induction false} TrimEndPrefix(s: string)
    ensures var t := TrimEnd(s); |t| <= |s| && t == s[..|t|] && (t == [] || !IsSpace(t[|t| - 1]))
  {
    if s != [] && IsSpace(s[|s| - 1]) {
      TrimEndPrefix(s[..|s| - 1]);
    }
  }

  lemma TrimIsTrimmed(s: string)
    ensures Trimmed(Trim(s)) && |Trim(s)| <= |s| && (forall c :: c in Trim(s) ==> c in s)
  {
    TrimStartSuffix(s);
    TrimEndPrefix(TrimStart(s));
  }

  lemma TrimOfTrimmed(s: string)
    requires Trimmed(s)
    ensures Trim(s) == s
  {
  }

  /** Whitespace on either side is what `Trim` removes, and nothing else. */
  lemma {:induction false} TrimPadded(pre: string, s: string, post: string)
    requires Trimmed(s) && s != []
    requires (forall c :: c in pre ==> IsSpace(c)) && (forall c :: c in post ==> IsSpace(c))
    ensures Trim(pre + s + post) == s
    decreases |pre| + |post|
  {
    if pre != [] {
      assert (pre + s + post)[1..] == pre[1..] + s + post;
      TrimPadded(pre[1..], s, post);
    } else if post != [] {
      var n := |post| - 1;
      assert pre + s + post == s + post;
      assert (s + post)[..|s + post| - 1] == s + post[..n];
      assert pre + s + post[..n] == s + post[..n];
      TrimPadded(pre, s, post[..n]);
    } else {
      assert pre + s + post == s;
    }
  }

  lemma {:induction false} TrimBlank(s: string)
    requires forall c :: c in s ==> IsSpace(c)
    ensures Trim(s) == []
  {
    if s != [] {
      TrimBlank(s[1..]);
    }
  }

  function LowerChar(c: char): char {
    if 'A' <= c <= 'Z' then (c as int + 32) as char else c
  }

  function UpperChar(c: char): char {
    if 'a' <= c <= 'z' then (c as int - 32) as char else c
  }

  function Lower(s: string): (t: string)
    ensures |t| == |s| && forall i :: 0 <= i < |s| ==> t[i] == LowerChar(s[i])
  {
    seq(|s|, i requires 0 <= i < |s| => LowerChar(s[i]))
  }

  function Upper(s: string): (t: string)
    ensures |t| == |s| && forall i :: 0 <= i < |s| ==> t[i] == UpperChar(s[i])
  {
    seq(|s|, i requires 0 <= i < |s| => UpperChar(s[i]))
  }

  /** The two cases of one ASCII letter, or the same character. */
  predicate SameLetter(c: char, d: char) {
    || c == d
    || ('a' <= c <= 'z' && d as int == c as int - 32)
    || ('a' <= d <= 'z' && c as int == d as int - 32)
  }

  lemma CaseMeaning(c: char, d: char)
    ensures UpperChar(c) == UpperChar(d) <==> SameLetter(c, d)
    ensures LowerChar(c) == LowerChar(d) <==> SameLetter(c, d)
    ensures !('a' <= UpperChar(c) <= 'z') && !('A' <= LowerChar(c) <= 'Z')
  {
  }

  // ---- code-point order ------------------------------------------------

  predicate Leq(a: string, b: string) {
    a == [] || (b != [] && (a[0] < b[0] || (a[0] == b[0] && Leq(a[1..], b[1..]))))
  }

  predicate Less(a: string, b: string) { a != b && Leq(a, b) }

  lemma {:induction false} LeqTotal(a: string, b: string)
    ensures Leq(a, b) || Leq(b, a)
    ensures Leq(a, b) && Leq(b, a) ==> a == b
  {
    if a != [] && b != [] && a[0] == b[0] {
      LeqTotal(a[1..], b[1..]);
      assert a == [a[0]] + a[1..] && b == [b[0]] + b[1..];
    }
  }

  /** `a` begins `b`, or has the smaller character where they first differ. */
  ghost predicate Precedes(a: string, b: string) {
    a <= b || exists k :: 0 <= k < |a| && k < |b| && a[..k] == b[..k] && a[k] < b[k]
  }

  lemma {:induction false} LeqMeaning(a: string, b: string)
    ensures Leq(a, b) <==> Precedes(a, b)
  {
    if a != [] && b != [] {
      assert a == [a[0]] + a[1..] && b == [b[0]] + b[1..];
      if a[0] == b[0] {
        LeqMeaning(a[1..], b[1..]);
        PrecedesCons(a[0], a[1..], b[1..]);
      } else if a[0] < b[0] {
        assert a[..0] == b[..0];
      } else {
        assert forall k :: 0 < k < |a| && k < |b| ==> a[..k][0] == a[0] && b[..k][0] == b[0];
      }
    }
  }

  lemma PrecedesCons(c: char, a: string, b: string)
    ensures Precedes([c] + a, [c] + b) <==> Precedes(a, b)
  {
    var x, y := [c] + a, [c] + b;
    assert x[1..] == a && y[1..] == b;
    if k :| 0 <= k < |a| && k < |b| && a[..k] == b[..k] && a[k] < b[k] {
      assert x[..k + 1] == [c] + a[..k] && y[..k + 1] == [c] + b[..k] && x[k + 1] < y[k + 1];
    }
    if k :| 0 <= k < |x| && k < |y| && x[..k] == y[..k] && x[k] < y[k] {
      assert k > 0;
      assert a[..k - 1] == x[..k][1..] && b[..k - 1] == y[..k][1..] && a[k - 1] < b[k - 1];
    }
  }

  lemma {:induction false} LeqTransitive(a: string, b: string, c: string)
    requires Leq(a, b) && Leq(b, c)
    ensures Leq(a, c)
  {
    if a != [] && b != [] && c != [] && a[0] == b[0] == c[0] {
      LeqTransitive(a[1..], b[1..], c[1..]);
    }
  }

  predicate Sorted(xs: seq<string>) {
    forall i, j :: 0 <= i < j < |xs| ==> Leq(xs[i], xs[j])
  }

  predicate StrictlySorted(xs: seq<string>) {
    forall i, j :: 0 <= i < j < |xs| ==> Less(xs[i], xs[j])
  }

  /** A strictly sorted list is determined by its members, so a contract that
      gives order and membership leaves no freedom. */
  lemma {:induction false} StrictlySortedUnique(xs: seq<string>, ys: seq<string>)
    requires StrictlySorted(xs) && StrictlySorted(ys)
    requires forall s :: s in xs <==> s in ys
    ensures xs == ys
  {
    assert xs != [] ==> xs[0] in ys;
    assert ys != [] ==> ys[0] in xs;
    if xs != [] && ys != [] {
      var i :| 0 <= i < |ys| && ys[i] == xs[0];
      var j :| 0 <= j < |xs| && xs[j] == ys[0];
      LeqTotal(xs[0], ys[0]);
      assert xs[0] == ys[0];
      forall s ensures s in xs[1..] <==> s in ys[1..] {
        if s in xs[1..] {
          var k :| 1 <= k < |xs| && xs[k] == s;
          assert Less(xs[0], xs[k]);
          assert s in ys;
        }
        if s in ys[1..] {
          var k :| 1 <= k < |ys| && ys[k] == s;
          assert Less(ys[0], ys[k]);
          assert s in xs;
        }
      }
      StrictlySortedUnique(xs[1..], ys[1..]);
    }
  }

  /** Insertion into a sorted list, after the elements not above it. */
  function InsertSorted(xs: seq<string>, x: string): (ys: seq<string>)
    requires Sorted(xs)
    ensures Sorted(ys) && multiset(ys) == multiset(xs) + multiset{x}
  {
    if xs == [] then [x]
    else if Leq(x, xs[0]) then
      PrependSorted(x, xs);
      [x] + xs
    else
      var rest := InsertSorted(xs[1..], x);
      LeqTotal(x, xs[0]);
      assert xs == [xs[0]] + xs[1..];
      PrependBelow(xs[0], rest, xs[1..], x);
      [xs[0]] + rest
  }

  lemma PrependSorted(x: string, xs: seq<string>)
    requires Sorted(xs) && (xs == [] || Leq(x, xs[0]))
    ensures Sorted([x] + xs)
  {
    forall j | 0 <= j < |xs| ensures Leq(x, xs[j]) {
      if j > 0 { LeqTransitive(x, xs[0], xs[j]); }
    }
  }

  lemma PrependBelow(head: string, rest: seq<string>, xs: seq<string>, x: string)
    requires Sorted(rest) && multiset(rest) == multiset(xs) + multiset{x}
    requires Leq(head, x) && forall s :: s in xs ==> Leq(head, s)
    ensures Sorted([head] + rest)
  {
    forall j | 0 <= j < |rest| ensures Leq(head, rest[j]) {
      assert rest[j] in multiset(rest);
    }
  }

  /** Rust's `Vec::sort`. */
  method Sort(xs: seq<string>) returns (ys: seq<string>)
    ensures Sorted(ys) && multiset(ys) == multiset(xs)
  {
    ys := [];
    for i := 0 to |xs|
      invariant Sorted(ys) && multiset(ys) == multiset(xs[..i])
    {
      assert xs[..i + 1] == xs[..i] + [xs[i]];
      ys := InsertSorted(ys, xs[i]);
    }
    assert xs[..|xs|] == xs;
  }

  predicate NoDuplicates<T(==)>(xs: seq<T>) {
    forall i, j :: 0 <= i < j < |xs| ==> xs[i] != xs[j]
  }

  /** Sorting a list without repetitions gives the strictly sorted list of its members. */
  lemma SortedDistinct(xs: seq<string>, ys: seq<string>)
    requires NoDuplicates(xs) && Sorted(ys) && multiset(ys) == multiset(xs)
    ensures StrictlySorted(ys) && forall s :: s in ys <==> s in xs
  {
    forall s ensures s in ys <==> s in xs {
      assert s in ys <==> s in multiset(ys);
      assert s in xs <==> s in multiset(xs);
    }
    forall i, j | 0 <= i < j < |ys| ensures ys[i] != ys[j] {
      CountAtMostOnce(xs, ys[i]);
      CountedTwice(ys, i, j);
    }
  }

  lemma CountedTwice<T>(xs: seq<T>, i: nat, j: nat)
    requires i < j < |xs|
    ensures xs[i] == xs[j] ==> multiset(xs)[xs[i]] >= 2
  {
    assert xs == xs[..i] + [xs[i]] + xs[i + 1..j] + [xs[j]] + xs[j + 1..];
  }

  lemma {:induction false} CountAtMostOnce<T>(xs: seq<T>, x: T)
    requires NoDuplicates(xs)
    ensures multiset(xs)[x] <= 1
  {
    if xs != [] {
      assert xs == [xs[0]] + xs[1..];
      CountAtMostOnce(xs[1..], x);
      if xs[0] == x { assert x !in xs[1..]; }
    }
  }
}
