/** The order of the open list (resources/scripts/grid.js:457-463): the list
    is re-sorted with `Array.prototype.sort` and a comparator that orders by
    f and breaks ties by h. `Array.prototype.sort` is stable, and it treats a
    comparator result of NaN like 0; it is modelled here as a stable
    insertion sort over a key per element. */
module OpenOrder {
  import opened Common

  /** What the comparator reads of a cell: its f and h values. */
  datatype Key = Key(f: Option<real>, h: Option<real>)

  /** `a - b` on numbers; NaN absorbs. */
  function Minus(a: Option<real>, b: Option<real>): (r: Option<real>) {
    if a.Some? && b.Some? then Some(a.value - b.value) else None
  }

  /** The comparator's result: `a.f != b.f ? a.f - b.f : a.h - b.h`. */
  function Compare(a: Key, b: Key): (r: Option<real>) {
    if Differs(a.f, b.f) then Minus(a.f, b.f) else Minus(a.h, b.h)
  }

  /** The sort moves a in front of b only when the comparator is negative;
      NaN counts as 0. */
  predicate Before(a: Key, b: Key) {
    var d := Compare(a, b);
    d.Some? && d.value < 0.0
  }

  predicate Defined(k: Key) {
    k.f.Some? && k.h.Some?
  }

  /** On keys whose parts are all numbers, the comparator is the
      lexicographic order on (f, h). */
  lemma BeforeIsLexicographic(a: Key, b: Key)
    requires Defined(a) && Defined(b)
    ensures Before(a, b) <==> a.f.value < b.f.value || (a.f.value == b.f.value && a.h.value < b.h.value)
  {
  }

  /** Every element has a key, and every key is made of numbers. */
  predicate AllDefined<T>(s: seq<T>, key: map<T, Key>) {
    forall i :: 0 <= i < |s| ==> s[i] in key && Defined(key[s[i]])
  }

  /** No element comes after one it is strictly before. */
  predicate SortedBy<T>(s: seq<T>, key: map<T, Key>)
    requires forall i :: 0 <= i < |s| ==> s[i] in key
  {
    forall i, j :: 0 <= i < j < |s| ==> !Before(key[s[j]], key[s[i]])
  }

  /** Places e in front of the first element it is not strictly after. */
  function Insert<T>(e: T, r: seq<T>, key: map<T, Key>): (s: seq<T>)
    requires e in key && forall i :: 0 <= i < |r| ==> r[i] in key
    ensures multiset(s) == multiset(r) + multiset{e}
    ensures |s| == |r| + 1
    ensures forall i :: 0 <= i < |s| ==> s[i] in key
  {
    if r == [] then [e]
    else if Before(key[r[0]], key[e]) then
      assert r == [r[0]] + r[1..];
      [r[0]] + Insert(e, r[1..], key)
    else [e] + r
  }

  /** `Array.prototype.sort` with the (f, h) comparator: the first element is
      inserted into the sorted rest, in front of every element it ties with,
      which keeps equal elements in their original order. */
  function Sort<T>(s: seq<T>, key: map<T, Key>): (r: seq<T>)
    requires forall i :: 0 <= i < |s| ==> s[i] in key
    ensures multiset(r) == multiset(s)
    ensures |r| == |s|
    ensures forall i :: 0 <= i < |r| ==> r[i] in key
  {
    if s == [] then []
    else
      assert s == [s[0]] + s[1..];
      Insert(s[0], Sort(s[1..], key), key)
  }

  /** Not strictly before, on number keys, is a total preorder. */
  lemma NotBeforeTransitive(a: Key, b: Key, c: Key)
    requires Defined(a) && Defined(b) && Defined(c)
    requires !Before(b, a) && !Before(c, b)
    ensures !Before(c, a)
  {
    BeforeIsLexicographic(b, a);
    BeforeIsLexicographic(c, b);
    BeforeIsLexicographic(c, a);
  }

  /** A sorted list with a head that no element is strictly before. */
  lemma ConsSorted<T>(x: T, t: seq<T>, key: map<T, Key>)
    requires x in key && forall i :: 0 <= i < |t| ==> t[i] in key
    requires SortedBy(t, key)
    requires forall j :: 0 <= j < |t| ==> !Before(key[t[j]], key[x])
    ensures SortedBy([x] + t, key)
  {
    var s := [x] + t;
    forall i, j | 0 <= i < j < |s| ensures !Before(key[s[j]], key[s[i]]) {
      assert s[j] == t[j - 1];
      if i > 0 {
        assert s[i] == t[i - 1];
      }
    }
  }

  lemma TailSorted<T>(r: seq<T>, key: map<T, Key>)
    requires r != [] && AllDefined(r, key) && SortedBy(r, key)
    ensures AllDefined(r[1..], key) && SortedBy(r[1..], key)
  {
    forall i | 0 <= i < |r[1..]| ensures r[1..][i] == r[i + 1] { }
  }

  /** Every element of a list holding e and the rest of r is not strictly before r's head. */
  lemma NotBeforeHead<T>(e: T, r: seq<T>, tail: seq<T>, key: map<T, Key>)
    requires e in key && Defined(key[e]) && AllDefined(r, key) && SortedBy(r, key)
    requires r != [] && Before(key[r[0]], key[e])
    requires multiset(tail) == multiset(r[1..]) + multiset{e}
    ensures forall j :: 0 <= j < |tail| ==> tail[j] in key && !Before(key[tail[j]], key[r[0]])
  {
    forall j | 0 <= j < |tail| ensures tail[j] in key && !Before(key[tail[j]], key[r[0]]) {
      assert tail[j] in multiset(tail);
      if tail[j] == e {
        BeforeIsLexicographic(key[r[0]], key[e]);
        BeforeIsLexicographic(key[e], key[r[0]]);
      } else {
        assert tail[j] in multiset(r[1..]);
        var k :| 0 <= k < |r[1..]| && r[1..][k] == tail[j];
        assert r[k + 1] == tail[j];
      }
    }
  }

  /** Inserting e behind a head that is strictly before it. */
  lemma {:induction false} InsertBehindSorted<T>(e: T, r: seq<T>, key: map<T, Key>)
    requires e in key && Defined(key[e]) && AllDefined(r, key)
    requires SortedBy(r, key)
    requires r != [] && Before(key[r[0]], key[e])
    ensures AllDefined(Insert(e, r, key), key)
    ensures SortedBy(Insert(e, r, key), key)
    decreases |r|, 0
  {
    TailSorted(r, key);
    InsertSorted(e, r[1..], key);
    var tail := Insert(e, r[1..], key);
    NotBeforeHead(e, r, tail, key);
    ConsSorted(r[0], tail, key);
    assert Insert(e, r, key) == [r[0]] + tail;
  }

  /** Inserting e in front of a head it is not strictly after. */
  lemma InsertInFrontSorted<T>(e: T, r: seq<T>, key: map<T, Key>)
    requires e in key && Defined(key[e]) && AllDefined(r, key)
    requires SortedBy(r, key)
    requires r != [] && !Before(key[r[0]], key[e])
    ensures AllDefined(Insert(e, r, key), key)
    ensures SortedBy(Insert(e, r, key), key)
  {
    var s := Insert(e, r, key);
    assert s == [e] + r;
    forall i, j | 0 <= i < j < |s| ensures !Before(key[s[j]], key[s[i]]) {
      assert s[j] == r[j - 1];
      if i == 0 {
        if j > 1 {
          NotBeforeTransitive(key[e], key[r[0]], key[r[j - 1]]);
        }
      } else {
        assert s[i] == r[i - 1];
      }
    }
  }

  /** Inserting into a sorted list keeps it sorted. */
  lemma {:induction false} InsertSorted<T>(e: T, r: seq<T>, key: map<T, Key>)
    requires e in key && Defined(key[e]) && AllDefined(r, key)
    requires SortedBy(r, key)
    ensures AllDefined(Insert(e, r, key), key)
    ensures SortedBy(Insert(e, r, key), key)
    decreases |r|, 1
  {
    if r == [] {
    } else if Before(key[r[0]], key[e]) {
      InsertBehindSorted(e, r, key);
    } else {
      InsertInFrontSorted(e, r, key);
    }
  }

  /** When every key is made of numbers, the result is sorted by (f, h). */
  lemma {:induction false} SortSorted<T>(s: seq<T>, key: map<T, Key>)
    requires AllDefined(s, key)
    ensures SortedBy(Sort(s, key), key)
  {
    if s != [] {
      assert AllDefined(s[1..], key) by {
        forall i | 0 <= i < |s[1..]| ensures s[1..][i] in key && Defined(key[s[1..][i]]) {
          assert s[1..][i] == s[i + 1];
        }
      }
      SortSorted(s[1..], key);
      var rest := Sort(s[1..], key);
      assert AllDefined(rest, key) by {
        forall i | 0 <= i < |rest| ensures rest[i] in key && Defined(key[rest[i]]) {
          assert rest[i] in multiset(s[1..]);
          var k :| 0 <= k < |s[1..]| && s[1..][k] == rest[i];
          assert s[k + 1] == rest[i];
        }
      }
      InsertSorted(s[0], rest, key);
    }
  }

  /** When no f is a number, as when there is no target, the comparator is
      NaN for every pair, no element is ever moved in front of another, and
      the list keeps its order. */
  lemma {:induction false} SortUndefined<T>(s: seq<T>, key: map<T, Key>)
    requires forall i :: 0 <= i < |s| ==> s[i] in key && key[s[i]].f.None?
    ensures Sort(s, key) == s
  {
    if s != [] {
      assert forall i :: 0 <= i < |s[1..]| ==> s[1..][i] == s[i + 1];
      SortUndefined(s[1..], key);
      assert s[1..] != [] ==> !Before(key[s[1..][0]], key[s[0]]);
      assert s == [s[0]] + s[1..];
    }
  }

  /** Elements that are all distinct stay distinct. */
  lemma SortKeepsDistinct<T>(s: seq<T>, key: map<T, Key>)
    requires forall i :: 0 <= i < |s| ==> s[i] in key
    requires Distinct(s)
    ensures Distinct(Sort(s, key))
  {
    var r := Sort(s, key);
    forall i, j | 0 <= i < j < |r| ensures r[i] != r[j] {
      if r[i] == r[j] {
        DistinctCount(s, r[i]);
        RepeatCount(r, i, j);
        assert false;
      }
    }
  }

  /** Two distinct sequences with nothing in common, joined and sorted,
      stay distinct. */
  lemma SortJoinKeepsDistinct<T>(a: seq<T>, b: seq<T>, key: map<T, Key>)
    requires forall i :: 0 <= i < |a + b| ==> (a + b)[i] in key
    requires Distinct(a) && Distinct(b) && forall c :: c in b ==> c !in a
    ensures Distinct(Sort(a + b, key))
  {
    DistinctJoin(a, b);
    SortKeepsDistinct(a + b, key);
  }

  /** An element that occurs at two positions is counted at least twice. */
  lemma RepeatCount<T>(r: seq<T>, i: nat, j: nat)
    requires i < j < |r| && r[i] == r[j]
    ensures multiset(r)[r[i]] >= 2
  {
    assert r == r[..j] + r[j..];
    assert r[i] == r[..j][i];
    assert r[j] == r[j..][0];
    assert multiset(r) == multiset(r[..j]) + multiset(r[j..]);
  }

  /** In a sequence without repeats, no element occurs twice. */
  lemma {:induction false} DistinctCount<T>(s: seq<T>, x: T)
    requires Distinct(s)
    ensures multiset(s)[x] <= 1
  {
    if s != [] {
      assert s == [s[0]] + s[1..];
      DistinctCount(s[1..], x);
      if s[0] == x {
        assert x !in s[1..];
      }
    }
  }
}
