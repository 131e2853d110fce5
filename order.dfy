/**
 The order the engine sorts by: cells (for the secondary sort column) and key
 tuples (for the iteration order over key sets). Strings compare character by
 character, integers numerically, `false` before `true`; values of different
 kinds compare by kind, with nulls last. Keys compare lexicographically.
 */
module Order {
  import opened Types

  /** The kind order of the value variants. */
  function Rank(v: Value): nat {
    match v
    case Bool(_) => 0
    case Int(_) => 1
    case Str(_) => 2
    case Null => 3
  }

  /** Lexicographic order on strings, a proper prefix first. */
  predicate StrLess(a: string, b: string)
    decreases |a|
  {
    if |a| == 0 then |b| != 0
    else if |b| == 0 then false
    else a[0] < b[0] || (a[0] == b[0] && StrLess(a[1..], b[1..]))
  }

  predicate ValueLess(a: Value, b: Value) {
    if Rank(a) != Rank(b) then Rank(a) < Rank(b)
    else match (a, b)
      case (Bool(x), Bool(y)) => !x && y
      case (Int(x), Int(y)) => x < y
      case (Str(x), Str(y)) => StrLess(x, y)
      case _ => false
  }

  predicate ValueLe(a: Value, b: Value) {
    a == b || ValueLess(a, b)
  }

  /** Lexicographic order on key tuples, a proper prefix first. */
  predicate KeyLess(a: Key, b: Key)
    decreases |a|
  {
    if |a| == 0 then |b| != 0
    else if |b| == 0 then false
    else ValueLess(a[0], b[0]) || (a[0] == b[0] && KeyLess(a[1..], b[1..]))
  }

  predicate KeyLe(a: Key, b: Key) {
    a == b || KeyLess(a, b)
  }

  // ---------------------------------------------------------------------------
  // StrLess is a strict total order

  lemma {:induction false} StrLessIrreflexive(a: string)
    ensures !StrLess(a, a)
    decreases |a|
  {
    if |a| != 0 {
      StrLessIrreflexive(a[1..]);
    }
  }

  lemma {:induction false} StrLessTransitive(a: string, b: string, c: string)
    requires StrLess(a, b) && StrLess(b, c)
    ensures StrLess(a, c)
    decreases |a|
  {
    if |a| != 0 && a[0] == b[0] && b[0] == c[0] && !(a[0] < b[0]) && !(b[0] < c[0]) {
      StrLessTransitive(a[1..], b[1..], c[1..]);
    }
  }

  lemma {:induction false} StrLessTotal(a: string, b: string)
    requires a != b
    ensures StrLess(a, b) || StrLess(b, a)
    decreases |a|
  {
    if |a| != 0 && |b| != 0 && a[0] == b[0] {
      assert a == [a[0]] + a[1..] && b == [b[0]] + b[1..];
      StrLessTotal(a[1..], b[1..]);
    }
  }

  // ---------------------------------------------------------------------------
  // ValueLess is a strict total order

  lemma ValueLessIrreflexive(a: Value)
    ensures !ValueLess(a, a)
  {
    if a.Str? {
      StrLessIrreflexive(a.s);
    }
  }

  lemma ValueLessTransitive(a: Value, b: Value, c: Value)
    requires ValueLess(a, b) && ValueLess(b, c)
    ensures ValueLess(a, c)
  {
    if a.Str? && b.Str? && c.Str? {
      StrLessTransitive(a.s, b.s, c.s);
    }
  }

  lemma ValueLessTotal(a: Value, b: Value)
    requires a != b
    ensures ValueLess(a, b) || ValueLess(b, a)
  {
    if a.Str? && b.Str? {
      StrLessTotal(a.s, b.s);
    }
  }

  lemma ValueLeTransitive(a: Value, b: Value, c: Value)
    requires ValueLe(a, b) && ValueLe(b, c)
    ensures ValueLe(a, c)
  {
    if a != b && b != c {
      ValueLessTransitive(a, b, c);
    }
  }

  lemma ValueLeTotal(a: Value, b: Value)
    ensures ValueLe(a, b) || ValueLe(b, a)
  {
    if a != b {
      ValueLessTotal(a, b);
    }
  }

  // ---------------------------------------------------------------------------
  // KeyLess is a strict total order

  lemma {:induction false} KeyLessIrreflexive(a: Key)
    ensures !KeyLess(a, a)
    decreases |a|
  {
    if |a| != 0 {
      ValueLessIrreflexive(a[0]);
      KeyLessIrreflexive(a[1..]);
    }
  }

  lemma {:induction false} KeyLessTransitive(a: Key, b: Key, c: Key)
    requires KeyLess(a, b) && KeyLess(b, c)
    ensures KeyLess(a, c)
    decreases |a|
  {
    if |a| != 0 {
      if ValueLess(a[0], b[0]) && ValueLess(b[0], c[0]) {
        ValueLessTransitive(a[0], b[0], c[0]);
      } else if a[0] == b[0] && b[0] == c[0] {
        if !ValueLess(a[0], b[0]) && !ValueLess(b[0], c[0]) {
          KeyLessTransitive(a[1..], b[1..], c[1..]);
        }
      }
    }
  }

  lemma {:induction false} KeyLessTotal(a: Key, b: Key)
    requires a != b
    ensures KeyLess(a, b) || KeyLess(b, a)
    decreases |a|
  {
    if |a| != 0 && |b| != 0 {
      if a[0] == b[0] {
        assert a == [a[0]] + a[1..] && b == [b[0]] + b[1..];
        KeyLessTotal(a[1..], b[1..]);
      } else {
        ValueLessTotal(a[0], b[0]);
      }
    }
  }

  lemma KeyLeTransitive(a: Key, b: Key, c: Key)
    requires KeyLe(a, b) && KeyLe(b, c)
    ensures KeyLe(a, c)
  {
    if a != b && b != c {
      KeyLessTransitive(a, b, c);
    }
  }

  lemma KeyLeAntisymmetric(a: Key, b: Key)
    requires KeyLe(a, b) && KeyLe(b, a)
    ensures a == b
  {
    if a != b {
      KeyLessTransitive(a, b, a);
      KeyLessIrreflexive(a);
    }
  }

  // ---------------------------------------------------------------------------
  // Sorting a set of keys: Python's sorted() over a set of tuples

  /** `m` is the least key of `s`. */
  predicate IsLeast(m: Key, s: set<Key>) {
    m in s && forall k :: k in s ==> KeyLe(m, k)
  }

  lemma {:induction false} LeastExists(s: set<Key>)
    requires s != {}
    ensures exists m :: IsLeast(m, s)
    decreases |s|
  {
    var x :| x in s;
    if s == {x} {
      assert IsLeast(x, s);
    } else {
      LeastExists(s - {x});
      var m :| IsLeast(m, s - {x});
      if KeyLe(x, m) {
        forall k | k in s ensures KeyLe(x, k) {
          if k != x {
            KeyLeTransitive(x, m, k);
          }
        }
        assert IsLeast(x, s);
      } else {
        KeyLessTotal(x, m);
        assert IsLeast(m, s);
      }
    }
  }

  lemma LeastUnique(m1: Key, m2: Key, s: set<Key>)
    requires IsLeast(m1, s) && IsLeast(m2, s)
    ensures m1 == m2
  {
    KeyLeAntisymmetric(m1, m2);
  }

  predicate StrictlySorted(ks: seq<Key>) {
    forall i, j :: 0 <= i < j < |ks| ==> KeyLess(ks[i], ks[j])
  }

  /** The elements of a set of keys in ascending order. */
  ghost function SortedKeys(s: set<Key>): seq<Key>
    decreases |s|
  {
    if s == {} then []
    else
      LeastExists(s);
      var m :| IsLeast(m, s);
      [m] + SortedKeys(s - {m})
  }

  /** SortedKeys lists every key of the set once, in strictly ascending order. */
  lemma {:induction false} SortedKeysSpec(s: set<Key>)
    ensures |SortedKeys(s)| == |s|
    ensures forall k :: k in SortedKeys(s) <==> k in s
    ensures StrictlySorted(SortedKeys(s))
    decreases |s|
  {
    if s != {} {
      LeastExists(s);
      var m :| IsLeast(m, s);
      SortedKeysUnfold(s, m);
      var rest := SortedKeys(s - {m});
      SortedKeysSpec(s - {m});
      forall k | k in rest ensures KeyLess(m, k) {
        assert KeyLe(m, k) && k != m;
      }
      PrependLeast(m, rest);
    }
  }

  /** Putting a key below all others in front of an ascending list keeps it
      ascending. */
  lemma PrependLeast(m: Key, rest: seq<Key>)
    requires StrictlySorted(rest)
    requires forall k :: k in rest ==> KeyLess(m, k)
    ensures StrictlySorted([m] + rest)
  {
    var r := [m] + rest;
    forall i, j | 0 <= i < j < |r| ensures KeyLess(r[i], r[j]) {
      if i == 0 {
        assert r[j] == rest[j - 1] && rest[j - 1] in rest;
      } else {
        assert r[i] == rest[i - 1] && r[j] == rest[j - 1];
      }
    }
  }

  /** Unfolding SortedKeys at any least element. */
  lemma SortedKeysUnfold(s: set<Key>, m: Key)
    requires IsLeast(m, s)
    ensures SortedKeys(s) == [m] + SortedKeys(s - {m})
  {
    LeastExists(s);
    var m' :| IsLeast(m', s) && SortedKeys(s) == [m'] + SortedKeys(s - {m'});
    LeastUnique(m, m', s);
  }

  /** A strictly ascending sequence is the sorted form of its element set. */
  lemma {:induction false} StrictlySortedIsSortedKeys(ks: seq<Key>)
    requires StrictlySorted(ks)
    ensures SortedKeys(set k | k in ks) == ks
    decreases |ks|
  {
    var s := set k | k in ks;
    if ks != [] {
      forall k | k in s ensures KeyLe(ks[0], k) {
        var j :| 0 <= j < |ks| && ks[j] == k;
      }
      assert IsLeast(ks[0], s);
      SortedKeysUnfold(s, ks[0]);
      KeyLessIrreflexive(ks[0]);
      assert s - {ks[0]} == set k | k in ks[1..];
      StrictlySortedIsSortedKeys(ks[1..]);
      assert ks == [ks[0]] + ks[1..];
    }
  }

  /** Python's sorted(keys): repeatedly takes the least remaining key. */
  method SortKeys(s: set<Key>) returns (r: seq<Key>)
    ensures r == SortedKeys(s)
    ensures StrictlySorted(r) && |r| == |s|
    ensures forall k :: k in r <==> k in s
  {
    var rest := s;
    r := [];
    while rest != {}
      invariant rest <= s
      invariant r + SortedKeys(rest) == SortedKeys(s)
      decreases |rest|
    {
      LeastExists(rest);
      var m :| IsLeast(m, rest);
      SortedKeysUnfold(rest, m);
      assert (r + [m]) + SortedKeys(rest - {m}) == r + SortedKeys(rest);
      r := r + [m];
      rest := rest - {m};
    }
    assert SortedKeys(rest) == [];
    SortedKeysSpec(s);
  }
}
