/**
 * Generic sequence operations behind the store's queries: ordering by a key,
 * largest first (`ORDER BY ... DESC`), and windowing (`OFFSET ... LIMIT ...`).
 */
module Sequences {

  function Min(a: int, b: int): int
  {
    if a <= b then a else b
  }

  /** `s` is ordered by `key`, largest first; elements with equal keys may come in any order. */
  ghost predicate SortedDesc<T>(s: seq<T>, key: T -> int)
  {
    forall i, j :: 0 <= i < j < |s| ==> key(s[i]) >= key(s[j])
  }

  /** Inserts `x` in front of the first element whose key is smaller than its own. */
  function Insert<T>(x: T, s: seq<T>, key: T -> int): (r: seq<T>)
    ensures multiset(r) == multiset(s) + multiset{x}
  {
    if s == [] || key(x) >= key(s[0]) then
      [x] + s
    else
      assert s == [s[0]] + s[1..];
      [s[0]] + Insert(x, s[1..], key)
  }

  /** Inserting into a sorted sequence keeps it sorted. */
  lemma {:induction false} InsertSorted<T>(x: T, s: seq<T>, key: T -> int)
    requires SortedDesc(s, key)
    ensures SortedDesc(Insert(x, s, key), key)
  {
    if s != [] && key(x) < key(s[0]) {
      var rest := Insert(x, s[1..], key);
      InsertSorted(x, s[1..], key);
      forall y | y in rest
        ensures key(s[0]) >= key(y)
      {
        assert y in multiset(rest);
        if y != x {
          assert y in multiset(s[1..]);
          var j :| 0 <= j < |s[1..]| && s[1..][j] == y;
          assert s[j + 1] == y;
        }
      }
      var r := [s[0]] + rest;
      forall i, j | 0 <= i < j < |r|
        ensures key(r[i]) >= key(r[j])
      {
        if i == 0 {
          assert r[j] == rest[j - 1];
          assert r[j] in rest;
        } else {
          assert r[i] == rest[i - 1] && r[j] == rest[j - 1];
        }
      }
    }
  }

  /**
   * One ordering of `s` by `key`, largest first. Callers rely only on its
   * contract, which leaves the order among equal keys open.
   */
  function SortDesc<T>(s: seq<T>, key: T -> int): (r: seq<T>)
    ensures multiset(r) == multiset(s)
    ensures |r| == |s|
    ensures SortedDesc(r, key)
  {
    if s == [] then []
    else
      assert s == [s[0]] + s[1..];
      var rest := SortDesc(s[1..], key);
      InsertSorted(s[0], rest, key);
      Insert(s[0], rest, key)
  }

  /** The elements that remain after skipping `offset` and keeping at most `limit`. */
  function Page<T>(s: seq<T>, limit: nat, offset: nat): (r: seq<T>)
    ensures |r| == Min(limit, if offset <= |s| then |s| - offset else 0)
    ensures forall i :: 0 <= i < |r| ==> offset + i < |s| && r[i] == s[offset + i]
  {
    var rest := if offset <= |s| then s[offset..] else [];
    if limit <= |rest| then rest[..limit] else rest
  }

  /** A window of a sequence holds nothing the sequence does not hold. */
  lemma PageSubMultiset<T>(s: seq<T>, limit: nat, offset: nat)
    ensures multiset(Page(s, limit, offset)) <= multiset(s)
  {
    var r := Page(s, limit, offset);
    if offset <= |s| {
      var k := offset + |r|;
      assert s == s[..offset] + r + s[k..];
    } else {
      assert r == [];
    }
  }

  /** A window of a sorted sequence is sorted. */
  lemma PageSorted<T>(s: seq<T>, key: T -> int, limit: nat, offset: nat)
    requires SortedDesc(s, key)
    ensures SortedDesc(Page(s, limit, offset), key)
  {
  }

  /** Two consecutive windows together are the window that spans both. */
  lemma {:induction false} ConsecutivePages<T>(s: seq<T>, a: nat, b: nat, offset: nat)
    ensures Page(s, a, offset) + Page(s, b, offset + a) == Page(s, a + b, offset)
  {
    var p, q, w := Page(s, a, offset), Page(s, b, offset + a), Page(s, a + b, offset);
    if offset + a <= |s| {
      assert |p| == a;
    } else {
      assert q == [];
    }
    assert |p + q| == |w|;
    forall i | 0 <= i < |w|
      ensures (p + q)[i] == w[i]
    {
      if i < |p| {
        assert (p + q)[i] == p[i];
      } else {
        assert (p + q)[i] == q[i - |p|];
      }
    }
  }

  /**
   * Keeping the first `limit` elements of a sorted sequence keeps the largest:
   * anything left out has a key no larger than anything kept.
   */
  lemma PrefixKeepsLargest<T>(s: seq<T>, key: T -> int, limit: nat)
    requires SortedDesc(s, key)
    ensures forall x, y :: x in s && x !in Page(s, limit, 0) && y in Page(s, limit, 0) ==> key(x) <= key(y)
  {
    var r := Page(s, limit, 0);
    forall x, y | x in s && x !in r && y in r
      ensures key(x) <= key(y)
    {
      var i :| 0 <= i < |s| && s[i] == x;
      var j :| 0 <= j < |r| && r[j] == y;
      assert s[j] == y;
    }
  }
}
