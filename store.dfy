/**
 * The record store as the handlers use it (rise/rise-backend/api/database.py):
 * a table is a sequence of rows, and every access is a conjunction of
 * equality filters, written here as a predicate on rows.
 *
 *   select(table, filters)              -> Where
 *   select(table, filters, single=True) -> SelectOne
 *   update(table, data, filters)        -> UpdateWhere
 *   delete(table, filters)              -> DeleteWhere
 *   insert(table, row)                  -> appending the row
 */
module Store {
  import opened Wrappers

  /** The rows of `t` that satisfy `p`, in table order. */
  function Where<R>(t: seq<R>, p: R -> bool): (r: seq<R>)
    ensures |r| <= |t|
    ensures forall i :: 0 <= i < |r| ==> p(r[i])
    decreases |t|
  {
    if t == [] then []
    else
      var init, last := t[..|t| - 1], t[|t| - 1];
      assert t == init + [last];
      Where(init, p) + (if p(last) then [last] else [])
  }

  /** The position of the first row of `t` that satisfies `p`, or |t| when there is none. */
  function FirstIndex<R>(t: seq<R>, p: R -> bool): (i: nat)
    ensures i <= |t|
    ensures i < |t| ==> p(t[i])
    ensures forall j :: 0 <= j < i ==> !p(t[j])
  {
    if t == [] then 0
    else if p(t[0]) then 0
    else 1 + FirstIndex(t[1..], p)
  }

  /**
   * `select(..., single=True)`: the head of what `select` returns, or None.
   * It is the first matching row of the table.
   */
  function SelectOne<R>(t: seq<R>, p: R -> bool): (r: Option<R>)
    ensures r == (var i := FirstIndex(t, p); if i < |t| then Some(t[i]) else None)
  {
    var rows := Where(t, p);
    WhereHead(t, p);
    if rows == [] then None else Some(rows[0])
  }

  /** The head of Where is the row at FirstIndex. */
  lemma {:induction false} WhereHead<R>(t: seq<R>, p: R -> bool)
    ensures var i := FirstIndex(t, p);
            (i == |t| <==> Where(t, p) == []) && (i < |t| ==> Where(t, p)[0] == t[i])
    decreases |t|
  {
    if t != [] {
      var init, last := t[..|t| - 1], t[|t| - 1];
      WhereHead(init, p);
      FirstIndexOfInit(t, p);
    }
  }

  /** Dropping the last row moves FirstIndex only if that row was the first match. */
  lemma {:induction false} FirstIndexOfInit<R>(t: seq<R>, p: R -> bool)
    requires t != []
    ensures var i, k := FirstIndex(t, p), FirstIndex(t[..|t| - 1], p);
            (k < |t| - 1 ==> i == k) && (k == |t| - 1 ==> i == |t| - 1 || i == |t|)
            && (k == |t| - 1 ==> (i == |t| - 1 <==> p(t[|t| - 1])))
    decreases |t|
  {
    if p(t[0]) {
    } else if |t| > 1 {
      FirstIndexOfInit(t[1..], p);
      assert t[1..][..|t[1..]| - 1] == t[..|t| - 1][1..];
    }
  }

  /** `update(table, data, filters)`: every matching row is rewritten by `f`, the rest stay. */
  function UpdateWhere<R>(t: seq<R>, p: R -> bool, f: R -> R): (r: seq<R>)
    ensures |r| == |t|
    ensures forall i :: 0 <= i < |t| ==> r[i] == if p(t[i]) then f(t[i]) else t[i]
  {
    if t == [] then []
    else [if p(t[0]) then f(t[0]) else t[0]] + UpdateWhere(t[1..], p, f)
  }

  /** `delete(table, filters)`: the rows that do not match, in table order. */
  function DeleteWhere<R>(t: seq<R>, p: R -> bool): (r: seq<R>)
    ensures forall i :: 0 <= i < |r| ==> !p(r[i])
    ensures |r| == |t| - |Where(t, p)|
    decreases |t|
  {
    if t == [] then []
    else
      var init, last := t[..|t| - 1], t[|t| - 1];
      assert t == init + [last];
      DeleteWhere(init, p) + (if p(last) then [] else [last])
  }

  /** No two rows of `t` share a key. */
  ghost predicate UniqueBy<R, K>(t: seq<R>, key: R -> K)
  {
    forall i, j :: 0 <= i < j < |t| ==> key(t[i]) != key(t[j])
  }

  /** Filtering twice is filtering once by the conjunction, keeping the table order. */
  lemma {:induction false} WhereWhere<R>(t: seq<R>, p: R -> bool, q: R -> bool, pq: R -> bool)
    requires forall x :: pq(x) == (p(x) && q(x))
    ensures Where(Where(t, p), q) == Where(t, pq)
    decreases |t|
  {
    if t != [] {
      var init, last := t[..|t| - 1], t[|t| - 1];
      WhereWhere(init, p, q, pq);
      WhereAppend(Where(init, p), if p(last) then [last] else [], q);
    }
  }

  /** Where distributes over concatenation. */
  lemma {:induction false} WhereAppend<R>(a: seq<R>, b: seq<R>, p: R -> bool)
    ensures Where(a + b, p) == Where(a, p) + Where(b, p)
    decreases |b|
  {
    if b != [] {
      var binit, blast := b[..|b| - 1], b[|b| - 1];
      assert (a + b)[..|a + b| - 1] == a + binit;
      assert (a + b)[|a + b| - 1] == blast;
      WhereAppend(a, binit, p);
    } else {
      assert a + b == a;
    }
  }

  /** A row is selected by Where exactly when it is a row of the table that satisfies the filter. */
  lemma {:induction false} WhereMembers<R>(t: seq<R>, p: R -> bool)
    ensures forall x :: x in Where(t, p) ==> x in t && p(x)
    ensures forall x :: x in t && p(x) ==> x in Where(t, p)
    decreases |t|
  {
    if t != [] {
      var init, last := t[..|t| - 1], t[|t| - 1];
      WhereMembers(init, p);
      assert t == init + [last];
    }
  }

  /** Nothing is selected exactly when no row satisfies the filter. */
  lemma WhereEmpty<R>(t: seq<R>, p: R -> bool)
    ensures Where(t, p) == [] <==> forall i :: 0 <= i < |t| ==> !p(t[i])
  {
    WhereMembers(t, p);
    var w := Where(t, p);
    if w != [] {
      assert w[0] in w;
    }
  }

  /** A row survives a delete exactly when it is a row of the table that does not match. */
  lemma {:induction false} DeleteMembers<R>(t: seq<R>, p: R -> bool)
    ensures forall x :: x in DeleteWhere(t, p) ==> x in t && !p(x)
    ensures forall x :: x in t && !p(x) ==> x in DeleteWhere(t, p)
    decreases |t|
  {
    if t != [] {
      var init, last := t[..|t| - 1], t[|t| - 1];
      DeleteMembers(init, p);
      assert t == init + [last];
    }
  }

  /** Where over a single row. */
  lemma WhereSingleton<R>(x: R, p: R -> bool)
    ensures Where([x], p) == if p(x) then [x] else []
  {
    assert [x][..0] == [];
  }

  /** The positions of the rows of `t` that satisfy `p`. */
  function Positions<R>(t: seq<R>, p: R -> bool): set<nat>
  {
    set i: nat | i < |t| && p(t[i])
  }

  /** Where selects as many rows as there are positions whose row matches. */
  lemma {:induction false} WhereSize<R>(t: seq<R>, p: R -> bool)
    ensures |Where(t, p)| == |Positions(t, p)|
  {
    var matching := Positions(t, p);
    if t == [] {
      assert matching == {};
    } else {
      var n := |t| - 1;
      var init := t[..n];
      WhereSize(init, p);
      var before := Positions(init, p);
      assert n !in before;
      if p(t[n]) {
        assert matching == before + {n};
      } else {
        assert matching == before;
      }
    }
  }

  /** Appending a row the filter accepts adds it at the end of the filter's answer. */
  lemma AppendMatching<R>(t: seq<R>, x: R, q: R -> bool)
    requires q(x)
    ensures Where(t + [x], q) == Where(t, q) + [x]
  {
    WhereAppend(t, [x], q);
    WhereSingleton(x, q);
  }

  /** Appending a row the filter rejects leaves the filter's answer as it was. */
  lemma AppendElsewhere<R>(t: seq<R>, x: R, q: R -> bool)
    requires !q(x)
    ensures Where(t + [x], q) == Where(t, q)
  {
    WhereAppend(t, [x], q);
    WhereSingleton(x, q);
  }

  /** Where over one row more: the loop step of an appending filter. */
  lemma WhereSnoc<R>(t: seq<R>, i: nat, p: R -> bool)
    requires i < |t|
    ensures Where(t[..i + 1], p) == Where(t[..i], p) + (if p(t[i]) then [t[i]] else [])
  {
    assert t[..i + 1][..i] == t[..i];
  }

  /**
   * After an update whose rewrite keeps matching rows matching, the first match
   * is the rewrite of the old first match.
   */
  lemma SelectOneAfterUpdate<R>(t: seq<R>, p: R -> bool, f: R -> R)
    requires forall x :: p(x) ==> p(f(x))
    ensures SelectOne(UpdateWhere(t, p, f), p)
         == (match SelectOne(t, p) case Some(x) => Some(f(x)) case None => None)
  {
    var u := UpdateWhere(t, p, f);
    var i := FirstIndex(t, p);
    FirstIndexIs(u, p, i);
  }

  /** FirstIndex is the position before which nothing matches and at which something does. */
  lemma {:induction false} FirstIndexIs<R>(t: seq<R>, p: R -> bool, i: nat)
    requires i <= |t|
    requires forall j :: 0 <= j < i ==> !p(t[j])
    requires i < |t| ==> p(t[i])
    ensures FirstIndex(t, p) == i
  {
    if i > 0 {
      FirstIndexIs(t[1..], p, i - 1);
    }
  }

  /** When select(single=True) finds nothing, no row of the table matches. */
  lemma NoneSelected<R>(t: seq<R>, p: R -> bool)
    requires SelectOne(t, p).None?
    ensures forall y :: y in t ==> !p(y)
  {
    forall y | y in t ensures !p(y) {
      var i :| 0 <= i < |t| && t[i] == y;
    }
  }

  /** A row appended to a table with no match for `p` is the first match. */
  lemma SelectOneAfterAppend<R>(t: seq<R>, x: R, p: R -> bool)
    requires SelectOne(t, p) == None
    requires p(x)
    ensures SelectOne(t + [x], p) == Some(x)
  {
    assert forall j :: 0 <= j < |t| ==> (t + [x])[j] == t[j];
  }

  /** In a key-unique table a key filter matches the selected row and nothing else. */
  lemma SelectOneUnique<R, K>(t: seq<R>, key: R -> K, k: K, p: R -> bool, i: nat)
    requires UniqueBy(t, key)
    requires forall x :: p(x) <==> key(x) == k
    requires i < |t| && p(t[i])
    ensures SelectOne(t, p) == Some(t[i])
  {
    var j := FirstIndex(t, p);
    assert key(t[j]) == k;
  }

  /** A rewrite that keeps keys keeps a key-unique table key-unique. */
  lemma UpdateKeepsUnique<R, K>(t: seq<R>, p: R -> bool, f: R -> R, key: R -> K)
    requires UniqueBy(t, key)
    requires forall x :: key(f(x)) == key(x)
    ensures UniqueBy(UpdateWhere(t, p, f), key)
  {
  }

  /**
   * An update that reaches at most one row and either keeps that row's key or
   * gives it `k`, where no other row holds `k`, keeps a key-unique table key-unique.
   */
  lemma UpdateOneKeepsUnique<R, K>(t: seq<R>, sel: R -> bool, f: R -> R, key: R -> K, k: K)
    requires UniqueBy(t, key)
    requires forall i, j :: 0 <= i < |t| && 0 <= j < |t| && sel(t[i]) && sel(t[j]) ==> i == j
    requires forall x :: key(f(x)) == key(x) || key(f(x)) == k
    requires forall i :: 0 <= i < |t| && key(t[i]) == k ==> sel(t[i])
    ensures UniqueBy(UpdateWhere(t, sel, f), key)
  {
    var r := UpdateWhere(t, sel, f);
    forall i, j | 0 <= i < j < |r| ensures key(r[i]) != key(r[j]) {
      if sel(t[i]) {
        assert !sel(t[j]);
        assert key(t[j]) != k;
      } else if sel(t[j]) {
        assert key(t[i]) != k;
      }
    }
  }

  /** Appending a row with a fresh key keeps a key-unique table key-unique. */
  lemma AppendKeepsUnique<R, K>(t: seq<R>, x: R, key: R -> K)
    requires UniqueBy(t, key)
    requires forall y :: y in t ==> key(y) != key(x)
    ensures UniqueBy(t + [x], key)
  {
    forall i, j | 0 <= i < j < |t| + 1
      ensures key((t + [x])[i]) != key((t + [x])[j])
    {
      if j == |t| {
        assert (t + [x])[i] in t;
      }
    }
  }

  /** Deleting rows keeps a key-unique table key-unique. */
  lemma {:induction false} DeleteKeepsUnique<R, K>(t: seq<R>, p: R -> bool, key: R -> K)
    requires UniqueBy(t, key)
    ensures UniqueBy(DeleteWhere(t, p), key)
    decreases |t|
  {
    if t != [] {
      var init, last := t[..|t| - 1], t[|t| - 1];
      DeleteKeepsUnique(init, p, key);
      if !p(last) {
        DeleteMembers(init, p);
        forall y | y in DeleteWhere(init, p) ensures key(y) != key(last) {
          var j :| 0 <= j < |init| && init[j] == y;
        }
        AppendKeepsUnique(DeleteWhere(init, p), last, key);
      }
    }
  }

  /**
   * Counting after an update that makes every rewritten row satisfy `q`: the
   * old count plus the rewritten rows that did not satisfy `q` before.
   */
  lemma {:induction false} CountAfterUpdate<R>(t: seq<R>, sel: R -> bool, f: R -> R, q: R -> bool, gained: R -> bool)
    requires forall x :: sel(x) ==> q(f(x))
    requires forall x :: gained(x) == (sel(x) && !q(x))
    ensures |Where(UpdateWhere(t, sel, f), q)| == |Where(t, q)| + |Where(t, gained)|
  {
    if t != [] {
      var h := t[0];
      var h' := if sel(h) then f(h) else h;
      var rest := UpdateWhere(t[1..], sel, f);
      CountAfterUpdate(t[1..], sel, f, q, gained);
      assert t == [h] + t[1..];
      assert UpdateWhere(t, sel, f) == [h'] + rest;
      WhereAppend([h'], rest, q);
      WhereAppend([h], t[1..], q);
      WhereAppend([h], t[1..], gained);
      WhereSingleton(h', q);
      WhereSingleton(h, q);
      WhereSingleton(h, gained);
    }
  }

  /** After a delete no row matches the filter. */
  lemma DeleteLeavesNoMatch<R>(t: seq<R>, p: R -> bool)
    ensures SelectOne(DeleteWhere(t, p), p) == None
    ensures Where(DeleteWhere(t, p), p) == []
  {
    var d := DeleteWhere(t, p);
    WhereHead(d, p);
  }

  /** Filtering keeps every copy of the rows that pass and drops the rest. */
  lemma {:induction false} WhereCount<R>(t: seq<R>, p: R -> bool)
    ensures forall x :: multiset(Where(t, p))[x] == if p(x) then multiset(t)[x] else 0
    decreases |t|
  {
    if t != [] {
      var init, last := t[..|t| - 1], t[|t| - 1];
      assert t == init + [last];
      WhereCount(init, p);
    }
  }

  /** Filtering two orderings of the same rows gives two orderings of the same rows. */
  lemma WherePerm<R>(a: seq<R>, b: seq<R>, p: R -> bool)
    requires multiset(a) == multiset(b)
    ensures multiset(Where(a, p)) == multiset(Where(b, p))
  {
    var ma, mb := multiset(Where(a, p)), multiset(Where(b, p));
    forall x ensures ma[x] == mb[x] {
      WhereCount(a, p);
      WhereCount(b, p);
    }
    MultisetExt(ma, mb);
  }

  /** Multisets with the same multiplicities are equal. */
  lemma MultisetExt<R>(a: multiset<R>, b: multiset<R>)
    requires forall x :: a[x] == b[x]
    ensures a == b
  {
  }

  /**
   * An update whose matching rows are outside `q`, before and after the
   * rewrite, leaves the rows that `q` selects as they were.
   */
  lemma {:induction false} UpdateElsewhere<R>(t: seq<R>, sel: R -> bool, f: R -> R, q: R -> bool)
    requires forall x :: sel(x) ==> !q(x) && !q(f(x))
    ensures Where(UpdateWhere(t, sel, f), q) == Where(t, q)
    decreases |t|
  {
    if t != [] {
      var init := t[..|t| - 1];
      var u := UpdateWhere(t, sel, f);
      assert u[..|u| - 1] == UpdateWhere(init, sel, f);
      UpdateElsewhere(init, sel, f, q);
    }
  }

  /** A delete whose matching rows are outside `q` leaves the rows that `q` selects as they were. */
  lemma {:induction false} DeleteElsewhere<R>(t: seq<R>, sel: R -> bool, q: R -> bool)
    requires forall x :: q(x) ==> !sel(x)
    ensures Where(DeleteWhere(t, sel), q) == Where(t, q)
    decreases |t|
  {
    if t != [] {
      var init, last := t[..|t| - 1], t[|t| - 1];
      assert t == init + [last];
      DeleteElsewhere(init, sel, q);
      var kept := if sel(last) then [] else [last];
      WhereAppend(DeleteWhere(init, sel), kept, q);
      if kept != [] {
        WhereSingleton(last, q);
      }
    }
  }

  /** The next identity value: larger than every id in the table (1 for an empty table). */
  function NextId<R>(t: seq<R>, id: R -> int): (n: int)
    ensures forall x :: x in t ==> id(x) < n
    decreases |t|
  {
    if t == [] then 1
    else
      var init, last := t[..|t| - 1], t[|t| - 1];
      assert t == init + [last];
      var m := NextId(init, id);
      if id(last) + 1 > m then id(last) + 1 else m
  }
}
