/** The lookup history: looked-up terms, most recent first, each at most once.
    `addHistory` (AppViewModel.swift) removes every copy of the term with
    `removeAll` and then inserts the term at index 0. */
module History {

  predicate NoDuplicates<T(==)>(h: seq<T>) {
    forall i, j :: 0 <= i < j < |h| ==> h[i] != h[j]
  }

  /** `h` with every occurrence of `t` removed (Swift's `removeAll { $0 == t }`). */
  function RemoveAll<T(==)>(h: seq<T>, t: T): (r: seq<T>)
    ensures |r| <= |h|
    ensures t !in r
  {
    if h == [] then []
    else if h[0] == t then RemoveAll(h[1..], t)
    else [h[0]] + RemoveAll(h[1..], t)
  }

  /** The history after looking up `t`. */
  function Add<T(==)>(h: seq<T>, t: T): (r: seq<T>)
    ensures |r| > 0 && r[0] == t
  {
    [t] + RemoveAll(h, t)
  }

  /** Removal leaves no copy of `t` and every other element with its count. */
  lemma {:induction false} RemoveAllCount<T>(h: seq<T>, t: T)
    ensures multiset(RemoveAll(h, t)) == multiset(h)[t := 0]
  {
    if h != [] {
      assert h == [h[0]] + h[1..];
      RemoveAllCount(h[1..], t);
    }
  }

  /** After recording `t` the history holds `t` exactly once and every other
      term as often as before. */
  lemma AddCount<T>(h: seq<T>, t: T)
    ensures multiset(Add(h, t)) == multiset(h)[t := 1]
  {
    RemoveAllCount(h, t);
  }

  /** Removal drops `t` and keeps every other member. */
  lemma RemoveAllMembers<T>(h: seq<T>, t: T)
    ensures forall u :: u in RemoveAll(h, t) <==> u in h && u != t
  {
    var r := RemoveAll(h, t);
    RemoveAllCount(h, t);
    forall u ensures u in r <==> u in h && u != t {
      assert u in r <==> multiset(r)[u] > 0;
      assert u in h <==> multiset(h)[u] > 0;
    }
  }

  /** The history after recording `t` holds `t` and the old terms, nothing else. */
  lemma AddMembers<T>(h: seq<T>, t: T)
    ensures forall u :: u in Add(h, t) <==> u == t || u in h
  {
    var r := Add(h, t);
    AddCount(h, t);
    forall u ensures u in r <==> u == t || u in h {
      assert u in r <==> multiset(r)[u] > 0;
      assert u in h <==> multiset(h)[u] > 0;
    }
  }

  /** Removal keeps a duplicate-free history duplicate-free. */
  lemma {:induction false} RemoveAllKeepsNoDuplicates<T>(h: seq<T>, t: T)
    requires NoDuplicates(h)
    ensures NoDuplicates(RemoveAll(h, t))
  {
    if h != [] {
      RemoveAllKeepsNoDuplicates(h[1..], t);
      RemoveAllMembers(h[1..], t);
      var r := RemoveAll(h[1..], t);
      if h[0] != t {
        assert h[0] !in h[1..];
        ConsNoDuplicates(h[0], r);
      }
    }
  }

  /** Recording a term keeps a duplicate-free history duplicate-free. */
  lemma AddKeepsNoDuplicates<T>(h: seq<T>, t: T)
    requires NoDuplicates(h)
    ensures NoDuplicates(Add(h, t))
  {
    RemoveAllKeepsNoDuplicates(h, t);
    RemoveAllMembers(h, t);
    ConsNoDuplicates(t, RemoveAll(h, t));
  }

  lemma ConsNoDuplicates<T>(x: T, r: seq<T>)
    requires x !in r && NoDuplicates(r)
    ensures NoDuplicates([x] + r)
  {
    var s := [x] + r;
    forall i, j | 0 <= i < j < |s| ensures s[i] != s[j] {
      assert s[j] == r[j - 1];
      if i > 0 {
        assert s[i] == r[i - 1];
      }
    }
  }

  /** Removal distributes over concatenation: the surviving entries keep
      their relative order. */
  lemma {:induction false} RemoveAllConcat<T>(a: seq<T>, b: seq<T>, t: T)
    ensures RemoveAll(a + b, t) == RemoveAll(a, t) + RemoveAll(b, t)
  {
    if a == [] {
      assert a + b == b;
    } else {
      assert (a + b)[1..] == a[1..] + b;
      RemoveAllConcat(a[1..], b, t);
    }
  }

  /** Removing a term that is not there changes nothing. */
  lemma {:induction false} RemoveAllAbsent<T>(h: seq<T>, t: T)
    requires t !in h
    ensures RemoveAll(h, t) == h
  {
    if h != [] {
      RemoveAllAbsent(h[1..], t);
    }
  }

  /** In a duplicate-free history, removing the term at index `k` is cutting
      out exactly that entry. */
  lemma RemoveAllAt<T>(h: seq<T>, k: nat)
    requires NoDuplicates(h) && k < |h|
    ensures RemoveAll(h, h[k]) == h[..k] + h[k + 1..]
  {
    SplitAt(h, k);
    RemoveAllSplice(h[..k], h[k], h[k + 1..]);
  }

  /** In a duplicate-free history, the entry at `k` occurs neither before nor after `k`. */
  lemma SplitAt<T>(h: seq<T>, k: nat)
    requires NoDuplicates(h) && k < |h|
    ensures h == h[..k] + [h[k]] + h[k + 1..]
    ensures h[k] !in h[..k] && h[k] !in h[k + 1..]
  {
    var t, pre, post := h[k], h[..k], h[k + 1..];
    assert t !in pre by {
      forall i | 0 <= i < |pre| ensures pre[i] != t { assert pre[i] == h[i]; }
    }
    assert t !in post by {
      forall i | 0 <= i < |post| ensures post[i] != t { assert post[i] == h[k + 1 + i]; }
    }
  }

  /** Removing the one copy of `t` from between `pre` and `post`. */
  lemma RemoveAllSplice<T>(pre: seq<T>, t: T, post: seq<T>)
    requires t !in pre && t !in post
    ensures RemoveAll(pre + [t] + post, t) == pre + post
  {
    assert pre + [t] + post == pre + ([t] + post);
    assert ([t] + post)[1..] == post;
    RemoveAllConcat(pre, [t] + post, t);
    RemoveAllAbsent(pre, t);
    RemoveAllAbsent(post, t);
  }

  /** Looking up a new term pushes it in front of the unchanged history. */
  lemma AddNew<T>(h: seq<T>, t: T)
    requires t !in h
    ensures Add(h, t) == [t] + h
  {
    RemoveAllAbsent(h, t);
  }

  /** Looking up a term already at index `k` moves it to the front; the other
      entries keep their order. */
  lemma AddExisting<T>(h: seq<T>, k: nat)
    requires NoDuplicates(h) && k < |h|
    ensures Add(h, h[k]) == [h[k]] + h[..k] + h[k + 1..]
  {
    RemoveAllAt(h, k);
  }

  /** A duplicate-free history grows by one on a new term and keeps its
      length on a repeated one. */
  lemma AddLength<T>(h: seq<T>, t: T)
    requires NoDuplicates(h)
    ensures |Add(h, t)| == if t in h then |h| else |h| + 1
  {
    if t in h {
      var k :| 0 <= k < |h| && h[k] == t;
      AddExisting(h, k);
    } else {
      AddNew(h, t);
    }
  }

  /** Looking up the same term twice in a row leaves no duplicate behind. */
  lemma AddTwice<T>(h: seq<T>, t: T)
    ensures Add(Add(h, t), t) == Add(h, t)
  {
    var r := RemoveAll(h, t);
    assert ([t] + r)[1..] == r;
    RemoveAllMembers(h, t);
    RemoveAllAbsent(r, t);
  }

  /** Looking up the most recent term again leaves the history as it is. */
  lemma AddFront<T>(h: seq<T>)
    requires NoDuplicates(h) && h != []
    ensures Add(h, h[0]) == h
  {
    AddExisting(h, 0);
  }
}
