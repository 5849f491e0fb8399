/**
 * The two orders the queries ask the store for: `ORDER BY created_at DESC`
 * (with `LIMIT`) and `ORDER BY name`, each as a selection of row ids.
 */
module Ordering {
  import Sets

  // ---------------------------------------------------------------------------
  // Newest first
  // ---------------------------------------------------------------------------

  /** Strictly decreasing timestamps: newest first, no two rows tied. */
  ghost predicate NewestFirst(ids: seq<int>, stamp: int -> int) {
    forall i, j :: 0 <= i < j < |ids| ==> stamp(ids[i]) > stamp(ids[j])
  }

  ghost predicate DistinctStamps(keys: set<int>, stamp: int -> int) {
    forall a, b :: a in keys && b in keys && a != b ==> stamp(a) != stamp(b)
  }

  /**
   * What `ORDER BY stamp DESC LIMIT limit` returns over the rows `keys`: rows
   * only, newest first, at most `limit` of them, and a row is left out only
   * when the list is full and every listed row is newer.
   */
  ghost predicate IsNewestSelection(ids: seq<int>, keys: set<int>, stamp: int -> int, limit: nat) {
    && |ids| <= limit
    && (forall i :: 0 <= i < |ids| ==> ids[i] in keys)
    && NewestFirst(ids, stamp)
    && (forall k :: k in keys && k !in ids ==>
          |ids| == limit && forall i :: 0 <= i < |ids| ==> stamp(ids[i]) > stamp(k))
  }

  /** The rows newer than `k`. */
  ghost function Newer(keys: set<int>, stamp: int -> int, k: int): set<int> {
    set q | q in keys && stamp(q) > stamp(k)
  }

  /** Where `k` goes in a newest-first list: after every newer id, before every older one. */
  function NewestSlot(ids: seq<int>, k: int, stamp: int -> int): (n: nat)
    requires NewestFirst(ids, stamp)
    requires forall i :: 0 <= i < |ids| ==> stamp(ids[i]) != stamp(k)
    ensures n <= |ids|
    ensures forall i :: 0 <= i < n ==> stamp(ids[i]) > stamp(k)
    ensures forall i :: n <= i < |ids| ==> stamp(ids[i]) < stamp(k)
  {
    if ids == [] || stamp(k) > stamp(ids[0]) then 0
    else
      assert NewestFirst(ids[1..], stamp) by {
        forall i, j | 0 <= i < j < |ids[1..]| ensures stamp(ids[1..][i]) > stamp(ids[1..][j]) {
          assert ids[1..][i] == ids[i + 1] && ids[1..][j] == ids[j + 1];
        }
      }
      var n := NewestSlot(ids[1..], k, stamp);
      assert forall i :: 1 <= i < |ids| ==> ids[i] == ids[1..][i - 1];
      1 + n
  }

  /** Inserting at the slot keeps the list newest first. */
  lemma InsertNewest(ids: seq<int>, k: int, stamp: int -> int)
    requires NewestFirst(ids, stamp)
    requires forall i :: 0 <= i < |ids| ==> stamp(ids[i]) != stamp(k)
    ensures NewestFirst(Sets.InsertAt(ids, NewestSlot(ids, k, stamp), k), stamp)
  {
    Sets.InsertAtIndex(ids, NewestSlot(ids, k, stamp), k);
  }

  /** `ORDER BY stamp DESC LIMIT limit` over the rows `keys`. */
  method SelectNewest(keys: set<int>, stamp: int -> int, limit: nat) returns (ids: seq<int>)
    requires DistinctStamps(keys, stamp)
    ensures IsNewestSelection(ids, keys, stamp, limit)
  {
    var all: seq<int> := [];
    var todo := keys;
    while todo != {}
      invariant todo <= keys
      invariant NewestFirst(all, stamp)
      invariant forall i :: 0 <= i < |all| ==> all[i] in keys && all[i] !in todo
      invariant forall k :: k in keys && k !in todo ==> k in all
      decreases todo
    {
      ghost var some := Sets.Member(todo);
      var k :| k in todo;
      assert forall i :: 0 <= i < |all| ==> all[i] in keys && all[i] != k;
      var n := NewestSlot(all, k, stamp);
      InsertNewest(all, k, stamp);
      Sets.InsertAtMembers(all, n, k);
      all := Sets.InsertAt(all, n, k);
      todo := todo - {k};
    }
    ids := if |all| <= limit then all else all[..limit];
    TakeNewest(all, keys, stamp, limit);
  }

  /** Keeping the first `limit` rows of all the rows newest first is a newest selection. */
  lemma TakeNewest(all: seq<int>, keys: set<int>, stamp: int -> int, limit: nat)
    requires NewestFirst(all, stamp)
    requires forall i :: 0 <= i < |all| ==> all[i] in keys
    requires forall k :: k in keys ==> k in all
    ensures IsNewestSelection(if |all| <= limit then all else all[..limit], keys, stamp, limit)
  {
    var ids := if |all| <= limit then all else all[..limit];
    assert forall i :: 0 <= i < |ids| ==> ids[i] == all[i];
    forall k | k in keys && k !in ids
      ensures |ids| == limit && forall i :: 0 <= i < |ids| ==> stamp(ids[i]) > stamp(k)
    {
      var j :| 0 <= j < |all| && all[j] == k;
      assert j >= limit;
    }
  }

  /**
   * A row is selected exactly when fewer than `limit` rows are newer than it:
   * the selection is the set of rows whose rank is below the limit.
   */
  lemma {:induction false} SelectedIffFewerNewer(ids: seq<int>, keys: set<int>, stamp: int -> int, limit: nat, k: int)
    requires IsNewestSelection(ids, keys, stamp, limit)
    requires k in keys
    ensures k in ids <==> |Newer(keys, stamp, k)| < limit
  {
    assert Sets.Distinct(ids);
    if k in ids {
      var i :| 0 <= i < |ids| && ids[i] == k;
      forall q | q in Newer(keys, stamp, k) ensures q in Sets.Elems(ids[..i]) {
        assert stamp(ids[i]) < stamp(q);
        assert q in ids;
        var j :| 0 <= j < |ids| && ids[j] == q;
        assert j < i;
        assert ids[..i][j] == q;
      }
      Sets.SubsetCard(Newer(keys, stamp, k), Sets.Elems(ids[..i]));
      Sets.ElemsCard(ids[..i]);
    } else {
      assert Sets.Elems(ids) <= Newer(keys, stamp, k);
      Sets.SubsetCard(Sets.Elems(ids), Newer(keys, stamp, k));
      Sets.ElemsCard(ids);
    }
  }

  // ---------------------------------------------------------------------------
  // By name
  // ---------------------------------------------------------------------------

  /**
   * Text order of SQLite's default BINARY collation: compare character codes
   * from the left; a proper prefix comes first.
   */
  predicate LexLe(a: string, b: string) {
    a == [] || (b != [] && (a[0] < b[0] || (a[0] == b[0] && LexLe(a[1..], b[1..]))))
  }

  lemma {:induction false} LexLeTotal(a: string, b: string)
    ensures LexLe(a, b) || LexLe(b, a)
  {
    if a != [] && b != [] && a[0] == b[0] {
      LexLeTotal(a[1..], b[1..]);
    }
  }

  lemma {:induction false} LexLeTransitive(a: string, b: string, c: string)
    requires LexLe(a, b) && LexLe(b, c)
    ensures LexLe(a, c)
  {
    if a != [] && a[0] == b[0] && b[0] == c[0] {
      LexLeTransitive(a[1..], b[1..], c[1..]);
    }
  }

  /** Each name is at most the next one. */
  ghost predicate ByName(ids: seq<int>, name: int -> string) {
    forall i :: 0 < i < |ids| ==> LexLe(name(ids[i - 1]), name(ids[i]))
  }

  /** Names in order across the whole list, not only between neighbours. */
  lemma {:induction false} ByNameEverywhere(ids: seq<int>, name: int -> string, i: int, j: int)
    requires ByName(ids, name)
    requires 0 <= i <= j < |ids|
    ensures LexLe(name(ids[i]), name(ids[j]))
    decreases j - i
  {
    if i == j {
      LexLeTotal(name(ids[i]), name(ids[j]));
    } else {
      ByNameEverywhere(ids, name, i, j - 1);
      LexLeTransitive(name(ids[i]), name(ids[j - 1]), name(ids[j]));
    }
  }

  /**
   * Where `k` goes in a list by name: before the first name that is not
   * smaller than its own, so every name before the slot is strictly smaller
   * and the name right after it is at least `k`'s (a tie puts `k` first).
   */
  function NameSlot(ids: seq<int>, k: int, name: int -> string): (n: nat)
    ensures n <= |ids|
    ensures forall i :: 0 <= i < n ==> !LexLe(name(k), name(ids[i]))
    ensures 0 < n ==> LexLe(name(ids[n - 1]), name(k))
    ensures n < |ids| ==> LexLe(name(k), name(ids[n]))
  {
    if ids == [] || LexLe(name(k), name(ids[0])) then 0
    else
      LexLeTotal(name(k), name(ids[0]));
      var n := NameSlot(ids[1..], k, name);
      assert forall i :: 1 <= i < |ids| ==> ids[i] == ids[1..][i - 1];
      assert n < |ids| - 1 ==> ids[1..][n] == ids[n + 1];
      1 + n
  }

  /** Inserting at the slot keeps the list in name order. */
  lemma InsertByName(ids: seq<int>, k: int, name: int -> string)
    requires ByName(ids, name)
    ensures ByName(Sets.InsertAt(ids, NameSlot(ids, k, name), k), name)
  {
    Sets.InsertAtIndex(ids, NameSlot(ids, k, name), k);
  }

  /** `ORDER BY name` over the rows `keys`: each row once, names in order. */
  method SortByName(keys: set<int>, name: int -> string) returns (ids: seq<int>)
    ensures Sets.Distinct(ids)
    ensures forall i :: 0 <= i < |ids| ==> ids[i] in keys
    ensures forall k :: k in keys ==> k in ids
    ensures ByName(ids, name)
  {
    ids := [];
    var todo := keys;
    while todo != {}
      invariant todo <= keys
      invariant Sets.Distinct(ids)
      invariant ByName(ids, name)
      invariant forall i :: 0 <= i < |ids| ==> ids[i] in keys && ids[i] !in todo
      invariant forall k :: k in keys && k !in todo ==> k in ids
      decreases todo
    {
      ghost var some := Sets.Member(todo);
      var k :| k in todo;
      var n := NameSlot(ids, k, name);
      InsertByName(ids, k, name);
      Sets.InsertAtMembers(ids, n, k);
      Sets.InsertAtDistinct(ids, n, k);
      ids := Sets.InsertAt(ids, n, k);
      todo := todo - {k};
    }
  }
}
