/** Small facts about finite sets and the elements of sequences. */
module Sets {

  /** A non-empty set has a member; the choice of an arbitrary row of a table rests on it. */
  lemma Member<T>(s: set<T>) returns (x: T)
    requires s != {}
    ensures x in s
  {
    if forall y :: y !in s {
      assert false;
    }
    x :| x in s;
  }

  lemma SubsetCard<T>(a: set<T>, b: set<T>)
    requires a <= b
    ensures |a| <= |b|
  {
    assert b == a + (b - a);
  }

  /** No element occurs twice. */
  ghost predicate Distinct<T>(s: seq<T>) {
    forall i, j :: 0 <= i < j < |s| ==> s[i] != s[j]
  }

  /** The elements of a sequence, as a set. */
  function Elems<T>(s: seq<T>): set<T> {
    set x | x in s
  }

  /** A sequence has at least as many positions as distinct elements, exactly as many when none repeats. */
  lemma {:induction false} ElemsCard<T>(s: seq<T>)
    ensures |Elems(s)| <= |s|
    ensures Distinct(s) ==> |Elems(s)| == |s|
  {
    if s != [] {
      ElemsCard(s[1..]);
      assert Elems(s) == {s[0]} + Elems(s[1..]);
      if Distinct(s) {
        assert Distinct(s[1..]) by {
          forall i, j | 0 <= i < j < |s[1..]| ensures s[1..][i] != s[1..][j] {
            assert s[1..][i] == s[i + 1] && s[1..][j] == s[j + 1];
          }
        }
        assert s[0] !in Elems(s[1..]) by {
          forall i | 0 <= i < |s[1..]| ensures s[1..][i] != s[0] {
            assert s[1..][i] == s[i + 1];
          }
        }
      }
    }
  }

  /** `s` with `x` put in at position `n`. */
  function InsertAt<T>(s: seq<T>, n: nat, x: T): seq<T>
    requires n <= |s|
  {
    s[..n] + [x] + s[n..]
  }

  lemma InsertAtIndex<T>(s: seq<T>, n: nat, x: T)
    requires n <= |s|
    ensures |InsertAt(s, n, x)| == |s| + 1
    ensures forall i :: 0 <= i < n ==> InsertAt(s, n, x)[i] == s[i]
    ensures InsertAt(s, n, x)[n] == x
    ensures forall i :: n < i <= |s| ==> InsertAt(s, n, x)[i] == s[i - 1]
  {
  }

  /** Insertion adds `x` and loses nothing. */
  lemma InsertAtMembers<T>(s: seq<T>, n: nat, x: T)
    requires n <= |s|
    ensures forall y :: y in InsertAt(s, n, x) <==> y in s || y == x
  {
    InsertAtIndex(s, n, x);
    var r := InsertAt(s, n, x);
    forall y | y in s ensures y in r {
      var i :| 0 <= i < |s| && s[i] == y;
      if i < n { assert r[i] == y; } else { assert r[i + 1] == y; }
    }
  }

  /** Inserting a new element keeps a sequence free of repeats. */
  lemma InsertAtDistinct<T>(s: seq<T>, n: nat, x: T)
    requires n <= |s| && Distinct(s) && x !in s
    ensures Distinct(InsertAt(s, n, x))
  {
    InsertAtIndex(s, n, x);
  }

  /** Removing keys that are present shrinks a map by exactly their number. */
  lemma MapMinusCard<K, V>(m: map<K, V>, s: set<K>)
    requires s <= m.Keys
    ensures |m - s| == |m| - |s|
  {
    assert (m - s).Keys == m.Keys - s;
    assert m.Keys == (m.Keys - s) + s;
    assert |m - s| == |(m - s).Keys|;
    assert |m| == |m.Keys|;
  }
}
