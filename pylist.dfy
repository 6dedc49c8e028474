/**
  The Python list operations that the play queue and the selection list rely on:
  `x in l`, `l.index(x)`, `l.remove(x)` after an `in` test, `l.insert(pos, x)`,
  and the uniqueness and filtering notions used to state their effect.
 */
module PyList {

  /** No element occurs twice. */
  predicate NoDup(s: seq<int>) {
    forall i, j :: 0 <= i < j < |s| ==> s[i] != s[j]
  }

  /** Index of the first occurrence of x in s, or -1 when x does not occur. */
  function IndexOf(s: seq<int>, x: int): (r: int)
    ensures -1 <= r < |s|
    ensures r == -1 <==> x !in s
    ensures 0 <= r ==> s[r] == x && x !in s[..r]
  {
    if |s| == 0 then -1
    else if s[0] == x then 0
    else
      var k := IndexOf(s[1..], x);
      if k == -1 then -1
      else
        assert s[..k + 1] == [s[0]] + s[1..][..k];
        k + 1
  }

  /** The first occurrence of x is the one after a prefix free of x. */
  lemma IndexOfAfterPrefix(a: seq<int>, b: seq<int>, x: int)
    requires x !in a && |b| > 0 && b[0] == x
    ensures IndexOf(a + b, x) == |a|
  {
    assert (a + b)[|a|] == x;
  }

  /** `if x in l: l.remove(x)`: drops the first occurrence of x, if there is one. */
  function RemoveFirst(s: seq<int>, x: int): (r: seq<int>)
    ensures x !in s ==> r == s
    ensures x in s ==> |r| == |s| - 1
  {
    var k := IndexOf(s, x);
    if k < 0 then s
    else s[..k] + s[k + 1..]
  }

  /** Removing x takes exactly one copy of x out of the list's multiset, when there is one. */
  lemma RemoveFirstMultiset(s: seq<int>, x: int)
    ensures multiset(RemoveFirst(s, x)) == multiset(s) - multiset{x}
  {
    var k := IndexOf(s, x);
    if k >= 0 {
      assert s == s[..k] + [x] + s[k + 1..];
      SplitMultiset(s[..k], x, s[k + 1..]);
    }
  }

  lemma SplitMultiset(a: seq<int>, x: int, b: seq<int>)
    ensures multiset(a + b) == multiset(a + [x] + b) - multiset{x}
  {
    assert multiset(a + [x] + b) == multiset(a + b) + multiset{x};
  }

  /** Removing x from a list whose first x follows the prefix a drops exactly that x. */
  lemma RemoveFirstAfterPrefix(a: seq<int>, x: int, b: seq<int>)
    requires x !in a
    ensures RemoveFirst(a + [x] + b, x) == a + b
  {
    IndexOfAfterPrefix(a, [x] + b, x);
    assert a + [x] + b == a + ([x] + b);
    assert (a + [x] + b)[|a| + 1..] == b;
  }

  /** Every element of s other than x, in order: the reference for "the others keep their order". */
  function Without(s: seq<int>, x: int): (r: seq<int>)
    ensures |r| <= |s|
    ensures forall y :: y in r <==> y in s && y != x
    ensures NoDup(s) ==> NoDup(r)
  {
    if s == [] then []
    else
      var rest := Without(s[1..], x);
      if s[0] == x then rest
      else
        assert forall y :: y in s[1..] ==> y in s;
        assert NoDup(s) ==> NoDup(s[1..]) && s[0] !in s[1..];
        [s[0]] + rest
  }

  /** Past a head that differs from x, removing x happens in the tail. */
  lemma RemoveFirstPastHead(s: seq<int>, x: int)
    requires s != [] && s[0] != x
    ensures RemoveFirst(s, x) == [s[0]] + RemoveFirst(s[1..], x)
  {
    if x in s[1..] {
      RemoveFirstInTail(s, x);
    } else {
      assert s == [s[0]] + s[1..];
    }
  }

  lemma RemoveFirstInTail(s: seq<int>, x: int)
    requires s != [] && s[0] != x && x in s[1..]
    ensures RemoveFirst(s, x) == [s[0]] + RemoveFirst(s[1..], x)
  {
    var t := s[1..];
    var k := IndexOf(t, x);
    assert IndexOf(s, x) == k + 1;
    assert s[..k + 1] == [s[0]] + t[..k];
    assert s[k + 2..] == t[k + 1..];
    assert RemoveFirst(t, x) == t[..k] + t[k + 1..];
    assert [s[0]] + t[..k] + t[k + 1..] == [s[0]] + (t[..k] + t[k + 1..]);
  }

  /** Without a duplicate, removing the first occurrence removes every occurrence. */
  lemma {:induction false} RemoveFirstIsWithout(s: seq<int>, x: int)
    requires NoDup(s)
    ensures RemoveFirst(s, x) == Without(s, x)
  {
    if s != [] {
      var t := s[1..];
      assert NoDup(t);
      RemoveFirstIsWithout(t, x);
      if s[0] == x {
        assert x !in t;
        assert RemoveFirst(s, x) == t;
      } else {
        RemoveFirstPastHead(s, x);
      }
    }
  }

  /** list.insert(pos, x) clamps pos: a negative one counts from the end, then both ends saturate. */
  function InsertIndex(pos: int, n: nat): (k: nat)
    ensures k <= n
    ensures 0 <= pos <= n ==> k == pos
    ensures pos < 0 && -pos <= n ==> k == n + pos
    ensures pos > n ==> k == n
    ensures pos + n < 0 ==> k == 0
  {
    if pos < 0 then (if pos + n < 0 then 0 else pos + n)
    else if pos > n then n
    else pos
  }

  /** `l.insert(pos, x)`. */
  function InsertAt(s: seq<int>, pos: int, x: int): (r: seq<int>)
    ensures |r| == |s| + 1
    ensures r[InsertIndex(pos, |s|)] == x
    ensures forall j :: 0 <= j < InsertIndex(pos, |s|) ==> r[j] == s[j]
    ensures forall j :: InsertIndex(pos, |s|) <= j < |s| ==> r[j + 1] == s[j]
  {
    var k := InsertIndex(pos, |s|);
    s[..k] + [x] + s[k..]
  }

  /** Inserting x adds exactly one copy of x to the list's multiset. */
  lemma InsertAtMultiset(s: seq<int>, pos: int, x: int)
    ensures multiset(InsertAt(s, pos, x)) == multiset(s) + multiset{x}
  {
    var k := InsertIndex(pos, |s|);
    assert s == s[..k] + s[k..];
  }

  /** Inserting a fresh element keeps a list free of duplicates. */
  lemma InsertAtKeepsNoDup(s: seq<int>, pos: int, x: int)
    requires NoDup(s) && x !in s
    ensures NoDup(InsertAt(s, pos, x))
  {
    var k := InsertIndex(pos, |s|);
    var r := InsertAt(s, pos, x);
    forall i, j | 0 <= i < j < |r| ensures r[i] != r[j] {
      if i < k && j < k {
        assert r[i] == s[i] && r[j] == s[j];
      } else if i < k && j == k {
        assert r[i] == s[i];
      } else if i < k {
        assert r[i] == s[i] && r[j] == s[j - 1];
      } else if i == k {
        assert r[j] == s[j - 1];
      } else {
        assert r[i] == s[i - 1] && r[j] == s[j - 1];
      }
    }
  }

  /** The elements of s as a set. */
  function Elements(s: seq<int>): set<int> {
    set x | x in s
  }

  /** A subset is no larger than its superset, and only of equal size when it is the whole set. */
  lemma SubsetCard(a: set<int>, b: set<int>)
    requires a <= b
    ensures |a| <= |b|
    ensures |a| == |b| ==> a == b
  {
    assert b == a + (b - a);
    assert |b| == |a| + |b - a|;
    if |a| == |b| {
      assert b - a == {};
    }
  }

  /** A list has at most as many distinct elements as entries, and as many exactly when it has no duplicate. */
  lemma {:induction false} ElementsCount(s: seq<int>)
    ensures |Elements(s)| <= |s|
    ensures |Elements(s)| == |s| <==> NoDup(s)
  {
    if s != [] {
      var t := s[1..];
      ElementsCount(t);
      assert Elements(s) == Elements(t) + {s[0]};
      if s[0] in t {
        assert Elements(s) == Elements(t);
        assert !NoDup(s) by {
          var j :| 0 <= j < |t| && t[j] == s[0];
          assert s[1 + j] == s[0];
        }
      } else {
        assert s[0] !in Elements(t);
        if NoDup(s) {
          assert NoDup(t);
        }
        if NoDup(t) {
          assert NoDup(s) by {
            forall i, j | 0 <= i < j < |s| ensures s[i] != s[j] {
              if i == 0 {
                assert s[j] == t[j - 1];
              } else {
                assert s[i] == t[i - 1] && s[j] == t[j - 1];
              }
            }
          }
        }
      }
    }
  }
}
