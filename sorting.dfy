/**
 * Python's `sorted(rows, key=k, reverse=True)` and `rows.sort(key=k, reverse=True)`
 * for a str-valued key: descending by key, and stable, so rows with equal keys
 * keep their original order.
 */
module Sorting {
  import opened Text
  import opened Store

  /** Keys never increase from left to right. */
  ghost predicate SortedDesc<T>(s: seq<T>, key: T -> string)
  {
    forall i, j :: 0 <= i < j < |s| ==> LexLe(key(s[j]), key(s[i]))
  }

  /** The filter "key equals k", one named value so that it can be compared. */
  function HasKey<T>(key: T -> string, k: string): T -> bool
  {
    x => key(x) == k
  }

  /**
   * The rows with each key appear in the same relative order in `r` as in `s`
   * (and, since every row has some key, `r` holds exactly the rows of `s`).
   */
  ghost predicate StableFor<T>(r: seq<T>, s: seq<T>, key: T -> string)
  {
    forall k :: Where(r, HasKey(key, k)) == Where(s, HasKey(key, k))
  }

  /** Put `x` in front of the first row whose key is not greater than its own. */
  function Insert<T>(x: T, s: seq<T>, key: T -> string): (r: seq<T>)
    ensures multiset(r) == multiset(s) + multiset{x}
  {
    if s == [] || LexLe(key(s[0]), key(x)) then [x] + s
    else
      assert s == [s[0]] + s[1..];
      [s[0]] + Insert(x, s[1..], key)
  }

  /** Stable descending insertion sort. */
  function SortDesc<T>(s: seq<T>, key: T -> string): (r: seq<T>)
    ensures multiset(r) == multiset(s)
  {
    if s == [] then []
    else
      assert s == [s[0]] + s[1..];
      Insert(s[0], SortDesc(s[1..], key), key)
  }

  lemma {:induction false} InsertSorted<T>(x: T, s: seq<T>, key: T -> string)
    requires SortedDesc(s, key)
    ensures SortedDesc(Insert(x, s, key), key)
  {
    if s == [] {
    } else if LexLe(key(s[0]), key(x)) {
      forall j | 0 <= j < |s| ensures LexLe(key(s[j]), key(x)) {
        if j > 0 {
          LexLeTrans(key(s[j]), key(s[0]), key(x));
        }
      }
    } else {
      LexLeTotal(key(s[0]), key(x));
      InsertSorted(x, s[1..], key);
      var tail := Insert(x, s[1..], key);
      forall j | 0 <= j < |tail| ensures LexLe(key(tail[j]), key(s[0])) {
        assert tail[j] in multiset(tail);
        if tail[j] != x {
          assert tail[j] in multiset(s[1..]);
          var m :| 0 <= m < |s[1..]| && s[1..][m] == tail[j];
          assert s[1..][m] == s[m + 1];
        }
      }
    }
  }

  /** The sort returns its rows in descending key order. */
  lemma {:induction false} SortDescSorted<T>(s: seq<T>, key: T -> string)
    ensures SortedDesc(SortDesc(s, key), key)
  {
    if s != [] {
      SortDescSorted(s[1..], key);
      InsertSorted(s[0], SortDesc(s[1..], key), key);
    }
  }

  /** Inserting `x` puts it in front of every row with the same key. */
  lemma {:induction false} InsertStable<T>(x: T, s: seq<T>, key: T -> string, k: string)
    ensures Where(Insert(x, s, key), HasKey(key, k))
         == Where([x], HasKey(key, k)) + Where(s, HasKey(key, k))
  {
    var p := HasKey(key, k);
    if s == [] || LexLe(key(s[0]), key(x)) {
      WhereAppend([x], s, p);
    } else {
      var tail := Insert(x, s[1..], key);
      var a, b, c := Where([x], p), Where([s[0]], p), Where(s[1..], p);
      calc {
        Where(Insert(x, s, key), p);
      == { assert Insert(x, s, key) == [s[0]] + tail; WhereAppend([s[0]], tail, p); }
        b + Where(tail, p);
      == { InsertStable(x, s[1..], key, k); }
        b + (a + c);
      == { PassedOver(x, s[0], key, k); SwapPast(a, b, c); }
        a + (b + c);
      == { assert s == [s[0]] + s[1..]; WhereAppend([s[0]], s[1..], p); }
        a + Where(s, p);
      }
    }
  }

  /** A row the insertion passes over has a greater key, so the two never share a key. */
  lemma PassedOver<T>(x: T, y: T, key: T -> string, k: string)
    requires !LexLe(key(y), key(x))
    ensures Where([x], HasKey(key, k)) == [] || Where([y], HasKey(key, k)) == []
  {
    WhereSingleton(x, HasKey(key, k));
    WhereSingleton(y, HasKey(key, k));
    if key(x) == k {
      LexLeRefl(key(x));
    }
  }

  lemma SwapPast<T>(a: seq<T>, b: seq<T>, c: seq<T>)
    requires a == [] || b == []
    ensures b + (a + c) == a + (b + c)
  {
    if a == [] {
      assert a + c == c;
      assert a + (b + c) == b + c;
    } else {
      assert b + (a + c) == a + c;
      assert b + c == c;
    }
  }


  /** The sort keeps rows with equal keys in their original order. */
  lemma {:induction false} SortDescStable<T>(s: seq<T>, key: T -> string)
    ensures StableFor(SortDesc(s, key), s, key)
  {
    if s != [] {
      SortDescStable(s[1..], key);
      forall k ensures Where(SortDesc(s, key), HasKey(key, k)) == Where(s, HasKey(key, k)) {
        InsertStable(s[0], SortDesc(s[1..], key), key, k);
        WhereAppend([s[0]], s[1..], HasKey(key, k));
        assert s == [s[0]] + s[1..];
      }
    }
  }

  /** A row of a sequence is among that sequence's rows with its own key. */
  lemma InOwnKeyGroup<T>(s: seq<T>, key: T -> string, i: nat)
    requires i < |s|
    ensures s[i] in Where(s, HasKey(key, key(s[i])))
  {
    WhereMembers(s, HasKey(key, key(s[i])));
  }

  /** In a descending sequence the first row has the greatest key. */
  lemma HeadIsMax<T>(s: seq<T>, key: T -> string, x: T)
    requires SortedDesc(s, key) && x in s
    ensures LexLe(key(x), key(s[0]))
  {
    var m :| 0 <= m < |s| && s[m] == x;
    if m == 0 {
      LexLeRefl(key(x));
    }
  }

  /** Only the empty sequence is a stable reordering of the empty sequence. */
  lemma StableOfEmpty<T>(a: seq<T>, b: seq<T>, key: T -> string)
    requires StableFor(a, b, key) && a == []
    ensures b == []
  {
    if b != [] {
      InOwnKeyGroup(b, key, 0);
    }
  }

  /** The first row of a descending sequence comes first among the rows with its key. */
  lemma HeadOfKeyGroup<T>(s: seq<T>, key: T -> string)
    requires s != []
    ensures Where(s, HasKey(key, key(s[0]))) == [s[0]] + Where(s[1..], HasKey(key, key(s[0])))
  {
    var p := HasKey(key, key(s[0]));
    assert s == [s[0]] + s[1..];
    WhereAppend([s[0]], s[1..], p);
    assert Where([s[0]], p) == Where([], p) + [s[0]];
  }

  /** Two descending stable reorderings of each other start with the same row. */
  lemma StableHeads<T>(a: seq<T>, b: seq<T>, key: T -> string)
    requires SortedDesc(a, key) && SortedDesc(b, key)
    requires a != [] && b != []
    requires Where(a, HasKey(key, key(a[0]))) == Where(b, HasKey(key, key(a[0])))
    requires Where(a, HasKey(key, key(b[0]))) == Where(b, HasKey(key, key(b[0])))
    ensures a[0] == b[0]
  {
    var x, y := a[0], b[0];
    InOwnKeyGroup(a, key, 0);
    InOwnKeyGroup(b, key, 0);
    WhereMembers(b, HasKey(key, key(x)));
    WhereMembers(a, HasKey(key, key(y)));
    HeadIsMax(b, key, x);
    HeadIsMax(a, key, y);
    LexLeAntisym(key(x), key(y));
    var p := HasKey(key, key(x));
    assert p == HasKey(key, key(y));
    HeadOfKeyGroup(a, key);
    HeadOfKeyGroup(b, key);
    assert Where(a, p)[0] == x;
    assert Where(b, p)[0] == y;
  }

  /** Removing the same first row from two stable reorderings leaves stable reorderings. */
  lemma StableTails<T>(a: seq<T>, b: seq<T>, key: T -> string)
    requires StableFor(a, b, key) && a != [] && b != [] && a[0] == b[0]
    ensures StableFor(a[1..], b[1..], key)
  {
    assert a == [a[0]] + a[1..] && b == [b[0]] + b[1..];
    forall k ensures Where(a[1..], HasKey(key, k)) == Where(b[1..], HasKey(key, k)) {
      var p := HasKey(key, k);
      WhereAppend([a[0]], a[1..], p);
      WhereAppend([b[0]], b[1..], p);
      var h := Where([a[0]], p);
      assert Where(a, p) == Where(b, p);
      assert h + Where(a[1..], p) == h + Where(b[1..], p);
      assert Where(a[1..], p) == (h + Where(a[1..], p))[|h|..];
      assert Where(b[1..], p) == (h + Where(b[1..], p))[|h|..];
    }
  }

  /** A tail of a descending sequence is descending. */
  lemma SortedTail<T>(s: seq<T>, key: T -> string)
    requires SortedDesc(s, key) && s != []
    ensures SortedDesc(s[1..], key)
  {
  }

  /**
   * Two descending sequences that are stable reorderings of each other are equal:
   * a stable descending order is unique.
   */
  lemma {:induction false} SortedStableUnique<T>(a: seq<T>, b: seq<T>, key: T -> string)
    requires SortedDesc(a, key) && SortedDesc(b, key)
    requires StableFor(a, b, key)
    ensures a == b
    decreases |a|
  {
    if a == [] {
      StableOfEmpty(a, b, key);
    } else {
      if b == [] {
        StableOfEmpty(b, a, key);
      }
      assert Where(a, HasKey(key, key(a[0]))) == Where(b, HasKey(key, key(a[0])));
      assert Where(a, HasKey(key, key(b[0]))) == Where(b, HasKey(key, key(b[0])));
      StableHeads(a, b, key);
      StableTails(a, b, key);
      SortedTail(a, key);
      SortedTail(b, key);
      SortedStableUnique(a[1..], b[1..], key);
      assert a == [a[0]] + a[1..] && b == [b[0]] + b[1..];
    }
  }

  /**
   * SortDesc is the reference for Python's stable reverse sort: any descending
   * stable reordering of `s` is SortDesc(s).
   */
  lemma SortDescUnique<T>(s: seq<T>, r: seq<T>, key: T -> string)
    requires SortedDesc(r, key)
    requires StableFor(r, s, key)
    ensures r == SortDesc(s, key)
  {
    SortDescSorted(s, key);
    SortDescStable(s, key);
    SortedStableUnique(r, SortDesc(s, key), key);
  }
  /** Filtering a descending sequence keeps it descending. */
  lemma {:induction false} WhereKeepsSorted<T>(s: seq<T>, key: T -> string, p: T -> bool)
    requires SortedDesc(s, key)
    ensures SortedDesc(Where(s, p), key)
    decreases |s|
  {
    if s != [] {
      var init, last := s[..|s| - 1], s[|s| - 1];
      assert SortedDesc(init, key);
      WhereKeepsSorted(init, key, p);
      if p(last) {
        var w := Where(init, p);
        WhereMembers(init, p);
        forall i | 0 <= i < |w| ensures LexLe(key(last), key(w[i])) {
          assert w[i] in init;
          var j :| 0 <= j < |init| && init[j] == w[i];
        }
      }
    }
  }
}
