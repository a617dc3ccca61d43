/**
 The order in which an ordered map hands out its string keys: lexicographic
 comparison of the characters by code point (byte order of UTF-8 agrees with
 it). `SortedKeys` gives the keys of a finite set in that order; it is what
 iterating the children of a directory visits.
 */
module KeyOrder {

  /** Lexicographic "at most": a prefix comes first. */
  predicate Below(a: string, b: string) {
    |a| == 0 || (|b| != 0 && (a[0] < b[0] || (a[0] == b[0] && Below(a[1..], b[1..]))))
  }

  predicate Less(a: string, b: string) {
    Below(a, b) && a != b
  }

  /** Strictly ascending: sorted and without repetitions. */
  predicate Ascending(s: seq<string>) {
    forall i, j :: 0 <= i < j < |s| ==> Less(s[i], s[j])
  }

  predicate IsLeast(k: string, keys: set<string>) {
    k in keys && forall j :: j in keys ==> Below(k, j)
  }

  lemma {:induction false} BelowReflexive(a: string)
    ensures Below(a, a)
  {
    if |a| != 0 {
      BelowReflexive(a[1..]);
    }
  }

  lemma {:induction false} BelowAntisymmetric(a: string, b: string)
    requires Below(a, b) && Below(b, a)
    ensures a == b
  {
    if |a| != 0 {
      BelowAntisymmetric(a[1..], b[1..]);
      assert a == [a[0]] + a[1..];
      assert b == [b[0]] + b[1..];
    }
  }

  lemma {:induction false} BelowTransitive(a: string, b: string, c: string)
    requires Below(a, b) && Below(b, c)
    ensures Below(a, c)
  {
    if |a| != 0 && a[0] == b[0] && b[0] == c[0] {
      BelowTransitive(a[1..], b[1..], c[1..]);
    }
  }

  lemma {:induction false} BelowTotal(a: string, b: string)
    ensures Below(a, b) || Below(b, a)
  {
    if |a| != 0 && |b| != 0 && a[0] == b[0] {
      BelowTotal(a[1..], b[1..]);
    }
  }

  lemma AllAntisymmetric()
    ensures forall a, b :: Below(a, b) && Below(b, a) ==> a == b
  {
    forall a, b | Below(a, b) && Below(b, a) ensures a == b {
      BelowAntisymmetric(a, b);
    }
  }

  /** Every non-empty finite set of keys has a least element. */
  lemma {:induction false} LeastExists(keys: set<string>)
    requires keys != {}
    ensures exists k :: IsLeast(k, keys)
    decreases |keys|
  {
    var x :| x in keys;
    if keys == {x} {
      BelowReflexive(x);
      assert IsLeast(x, keys);
    } else {
      LeastExists(keys - {x});
      var m :| IsLeast(m, keys - {x});
      BelowTotal(x, m);
      if Below(x, m) {
        forall j | j in keys ensures Below(x, j) {
          if j == x { BelowReflexive(x); } else { BelowTransitive(x, m, j); }
        }
        assert IsLeast(x, keys);
      } else {
        assert IsLeast(m, keys);
      }
    }
  }

  /** The keys in ascending order; one entry per key. */
  function SortedKeys(keys: set<string>): (r: seq<string>)
    ensures |r| == |keys|
    ensures forall k :: k in r <==> k in keys
    ensures Ascending(r)
    decreases |keys|
  {
    if keys == {} then []
    else
      LeastExists(keys);
      AllAntisymmetric();
      var k :| IsLeast(k, keys);
      var rest := SortedKeys(keys - {k});
      assert forall i :: 0 <= i < |rest| ==> rest[i] in keys - {k};
      [k] + rest
  }

  /** Two ascending sequences with the same elements are the same sequence:
      the order of a listing is fully determined by its keys. */
  lemma {:induction false} AscendingUnique(s: seq<string>, t: seq<string>)
    requires Ascending(s) && Ascending(t)
    requires forall k :: k in s <==> k in t
    ensures s == t
    decreases |s|
  {
    if s == [] {
      assert forall i :: 0 <= i < |t| ==> t[i] in t;
    } else {
      assert s[0] in s;
      assert t != [];
      assert t[0] in t;
      var i :| 0 <= i < |t| && t[i] == s[0];
      var j :| 0 <= j < |s| && s[j] == t[0];
      if i != 0 { assert Less(t[0], t[i]); }
      if j != 0 { assert Less(s[0], s[j]); }
      if i != 0 && j != 0 {
        BelowAntisymmetric(s[0], t[0]);
      }
      assert s[0] == t[0];
      forall k ensures k in s[1..] <==> k in t[1..] {
        if k in s[1..] {
          var m :| 0 < m < |s| && s[m] == k;
          assert Less(s[0], s[m]);
          assert k in t;
        }
        if k in t[1..] {
          var m :| 0 < m < |t| && t[m] == k;
          assert Less(t[0], t[m]);
          assert k in s;
        }
      }
      AscendingUnique(s[1..], t[1..]);
      assert s == [s[0]] + s[1..];
      assert t == [t[0]] + t[1..];
    }
  }

  /** Any ascending enumeration of a key set is SortedKeys of it. */
  lemma SortedKeysIsTheAscendingEnumeration(s: seq<string>, keys: set<string>)
    requires Ascending(s)
    requires forall k :: k in s <==> k in keys
    ensures SortedKeys(keys) == s
  {
    AscendingUnique(SortedKeys(keys), s);
  }
}
