/**
 * The order String.compareTo puts strings in, and the ascending enumeration of a key set that a
 * TreeMap<String, V> iterates in.
 */
module LexOrder {

  /**
   * a.compareTo(b) < 0: at the first position where the strings differ a has the smaller
   * character, or a is a proper prefix of b.
   */
  predicate Less(a: string, b: string)
  {
    if a == [] then b != []
    else if b == [] then false
    else a[0] < b[0] || (a[0] == b[0] && Less(a[1..], b[1..]))
  }

  predicate LessEq(a: string, b: string) {
    a == b || Less(a, b)
  }

  lemma {:induction false} LessIrreflexive(a: string)
    ensures !Less(a, a)
  {
    if a != [] {
      LessIrreflexive(a[1..]);
    }
  }

  lemma {:induction false} LessAsymmetric(a: string, b: string)
    requires Less(a, b)
    ensures !Less(b, a)
  {
    if a != [] && b != [] && a[0] == b[0] {
      LessAsymmetric(a[1..], b[1..]);
    }
  }

  lemma {:induction false} LessTransitive(a: string, b: string, c: string)
    requires Less(a, b) && Less(b, c)
    ensures Less(a, c)
  {
    if a != [] && a[0] == b[0] && b[0] == c[0] {
      LessTransitive(a[1..], b[1..], c[1..]);
    }
  }

  /** Any two different strings are ordered one way or the other. */
  lemma {:induction false} LessTotal(a: string, b: string)
    ensures a == b || Less(a, b) || Less(b, a)
  {
    if a != [] && b != [] && a[0] == b[0] {
      LessTotal(a[1..], b[1..]);
      if a[1..] == b[1..] {
        assert a == [a[0]] + a[1..] && b == [b[0]] + b[1..];
      }
    }
  }

  lemma LessEqTransitive(a: string, b: string, c: string)
    requires LessEq(a, b) && LessEq(b, c)
    ensures LessEq(a, c)
  {
    if a != b && b != c {
      LessTransitive(a, b, c);
    }
  }

  /** Not a.compareTo(b) < 0 means b.compareTo(a) <= 0. */
  lemma NotLess(a: string, b: string)
    requires !Less(a, b)
    ensures LessEq(b, a)
  {
    LessTotal(a, b);
  }

  predicate StrictlySorted(s: seq<string>) {
    forall i, j :: 0 <= i < j < |s| ==> Less(s[i], s[j])
  }

  predicate IsMinimum(m: string, keys: set<string>) {
    m in keys && forall k :: k in keys ==> LessEq(m, k)
  }

  /** Every non-empty finite set of strings has a least element. */
  lemma {:induction false} MinimumExists(keys: set<string>)
    requires keys != {}
    ensures exists m :: IsMinimum(m, keys)
    decreases keys
  {
    var x :| x in keys;
    if keys != {x} {
      var rest := keys - {x};
      MinimumExists(rest);
      var m :| IsMinimum(m, rest);
      if Less(x, m) {
        forall k | k in keys
          ensures LessEq(x, k)
        {
          if k != x {
            LessEqTransitive(x, m, k);
          }
        }
        assert IsMinimum(x, keys);
      } else {
        NotLess(x, m);
        assert IsMinimum(m, keys);
      }
    } else {
      assert IsMinimum(x, keys);
    }
  }

  /** The keys of a set in ascending order: the order a TreeMap iterates them in. */
  ghost function SortedIds(keys: set<string>): (ids: seq<string>)
    ensures StrictlySorted(ids)
    ensures forall k :: k in ids <==> k in keys
    decreases keys
  {
    if keys == {} then []
    else
      MinimumExists(keys);
      var m :| IsMinimum(m, keys);
      var rest := SortedIds(keys - {m});
      assert forall j :: 0 <= j < |rest| ==> Less(m, rest[j]) by {
        forall j | 0 <= j < |rest|
          ensures Less(m, rest[j])
        {
          assert rest[j] in keys - {m};
        }
      }
      [m] + rest
  }

  lemma HeadIn(s: seq<string>)
    requires s != []
    ensures s[0] in s
  {
  }

  /** Two ascending sequences with the same elements are equal. */
  lemma {:induction false} SortedUnique(a: seq<string>, b: seq<string>)
    requires StrictlySorted(a) && StrictlySorted(b)
    requires forall k :: k in a <==> k in b
    ensures a == b
  {
    if a == [] {
      if b != [] {
        HeadIn(b);
      }
    } else {
      assert b != [] by {
        assert a[0] in b;
      }
      if a[0] != b[0] {
        assert a[0] in b;
        var j :| 0 <= j < |b| && b[j] == a[0];
        assert b[0] in a;
        var i :| 0 <= i < |a| && a[i] == b[0];
        LessAsymmetric(a[0], b[0]);
      }
      forall k
        ensures k in a[1..] <==> k in b[1..]
      {
        if k in a[1..] {
          var i :| 1 <= i < |a| && a[i] == k;
          LessIrreflexive(a[0]);
          assert a[i] in a;
          var j :| 0 <= j < |b| && b[j] == k;
          assert j != 0 && b[1..][j - 1] == k;
        }
        if k in b[1..] {
          var j :| 1 <= j < |b| && b[j] == k;
          LessIrreflexive(b[0]);
          assert b[j] in b;
          var i :| 0 <= i < |a| && a[i] == k;
          assert i != 0 && a[1..][i - 1] == k;
        }
      }
      SortedUnique(a[1..], b[1..]);
      assert a == [a[0]] + a[1..] && b == [b[0]] + b[1..];
    }
  }

  /** Inserts k into an ascending sequence, keeping it ascending (no effect when k is present). */
  function Insert(s: seq<string>, k: string): (r: seq<string>)
    requires StrictlySorted(s)
    ensures StrictlySorted(r)
    ensures forall x :: x in r <==> x in s || x == k
  {
    if s == [] then [k]
    else if Less(k, s[0]) then
      assert forall j :: 0 <= j < |s| ==> Less(k, s[j]) by {
        forall j | 0 <= j < |s|
          ensures Less(k, s[j])
        {
          if j > 0 {
            LessTransitive(k, s[0], s[j]);
          }
        }
      }
      [k] + s
    else if k == s[0] then s
    else
      var rest := Insert(s[1..], k);
      NotLess(k, s[0]);
      assert forall j :: 0 <= j < |rest| ==> Less(s[0], rest[j]) by {
        forall j | 0 <= j < |rest|
          ensures Less(s[0], rest[j])
        {
          assert rest[j] in s[1..] || rest[j] == k;
        }
      }
      [s[0]] + rest
  }

  /** new TreeMap<>(map).keySet(): the keys, visited in any order and collected in ascending order. */
  method SortedKeys(keys: set<string>) returns (ids: seq<string>)
    ensures ids == SortedIds(keys)
  {
    ids := [];
    var remaining := keys;
    while remaining != {}
      invariant remaining <= keys
      invariant StrictlySorted(ids)
      invariant forall k :: k in ids <==> k in keys - remaining
      decreases remaining
    {
      var k :| k in remaining;
      ids := Insert(ids, k);
      remaining := remaining - {k};
    }
    SortedUnique(ids, SortedIds(keys));
  }
}
