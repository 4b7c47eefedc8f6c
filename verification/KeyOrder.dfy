/** The order the store iterates its keys in: lexicographic by code point. */
module KeyOrder {
  predicate Less(a: string, b: string) {
    b != "" && (a == "" || a[0] < b[0] || (a[0] == b[0] && Less(a[1..], b[1..])))
  }

  lemma {:induction false} LessTrichotomy(a: string, b: string)
    ensures a == b || Less(a, b) || Less(b, a)
    ensures !(Less(a, b) && Less(b, a)) && !Less(a, a)
  {
    if a != "" {
      LessTrichotomy(a[1..], a[1..]);
    }
    if a != "" && b != "" {
      LessTrichotomy(a[1..], b[1..]);
      assert a == [a[0]] + a[1..] && b == [b[0]] + b[1..];
    }
  }

  lemma {:induction false} LessTransitive(a: string, b: string, c: string)
    requires Less(a, b) && Less(b, c)
    ensures Less(a, c)
  {
    if a != "" && a[0] == b[0] == c[0] {
      LessTransitive(a[1..], b[1..], c[1..]);
    }
  }

  predicate IsLeast(m: string, keys: set<string>) {
    m in keys && forall k <- keys :: k == m || Less(m, k)
  }

  lemma {:induction false} LeastExists(keys: set<string>)
    requires keys != {}
    ensures exists m :: IsLeast(m, keys)
    decreases |keys|
  {
    var x :| x in keys;
    if keys == {x} {
      assert IsLeast(x, keys);
    } else {
      assert keys - {x} != {};
      LeastExists(keys - {x});
      var m :| IsLeast(m, keys - {x});
      LessTrichotomy(m, x);
      var least := if Less(m, x) then m else x;
      forall k | k in keys && k != least
        ensures Less(least, k)
      {
        if least == x && k != m {
          LessTransitive(x, m, k);
        }
      }
      assert IsLeast(least, keys);
    }
  }

  lemma LeastIsUnique(keys: set<string>)
    ensures forall m, n :: IsLeast(m, keys) && IsLeast(n, keys) ==> m == n
  {
    forall m, n | IsLeast(m, keys) && IsLeast(n, keys)
      ensures m == n
    {
      LessTrichotomy(m, n);
    }
  }

  /** The keys of a table in iteration order. */
  function Sorted(keys: set<string>): seq<string>
    decreases |keys|
  {
    if keys == {} then []
    else
      LeastExists(keys);
      LeastIsUnique(keys);
      var m :| m in keys && IsLeast(m, keys);
      [m] + Sorted(keys - {m})
  }

  lemma LeastThenRest(m: string, rest: seq<string>, keys: set<string>)
    requires IsLeast(m, keys) && m in keys
    requires forall k :: k in rest <==> k in keys - {m}
    requires forall i, j :: 0 <= i < j < |rest| ==> rest[i] != rest[j] && Less(rest[i], rest[j])
    ensures forall k :: k in [m] + rest <==> k in keys
    ensures forall i, j :: 0 <= i < j < |[m] + rest| ==>
      ([m] + rest)[i] != ([m] + rest)[j] && Less(([m] + rest)[i], ([m] + rest)[j])
  {
    forall i, j | 0 <= i < j < |[m] + rest|
      ensures ([m] + rest)[i] != ([m] + rest)[j] && Less(([m] + rest)[i], ([m] + rest)[j])
    {
      assert ([m] + rest)[j] == rest[j - 1] && rest[j - 1] in rest;
    }
  }

  /** Each key once, in ascending order. */
  lemma {:induction false} SortedKeys(keys: set<string>)
    ensures |Sorted(keys)| == |keys|
    ensures forall k :: k in Sorted(keys) <==> k in keys
    ensures forall i, j :: 0 <= i < j < |Sorted(keys)| ==>
      Sorted(keys)[i] != Sorted(keys)[j] && Less(Sorted(keys)[i], Sorted(keys)[j])
    decreases |keys|
  {
    if keys != {} {
      LeastExists(keys);
      LeastIsUnique(keys);
      var m :| m in keys && IsLeast(m, keys);
      var rest := Sorted(keys - {m});
      SortedKeys(keys - {m});
      assert Sorted(keys) == [m] + rest;
      LeastThenRest(m, rest, keys);
    }
  }

  ghost predicate Ascending(keys: seq<string>) {
    forall i, j :: 0 <= i < j < |keys| ==> Less(keys[i], keys[j])
  }

  lemma {:induction false} AscendingIsUnique(a: seq<string>, b: seq<string>)
    requires Ascending(a) && Ascending(b) && forall k :: k in a <==> k in b
    ensures a == b
  {
    assert a != [] ==> a[0] in a;
    assert b != [] ==> b[0] in b;
    if a != [] {
      var i :| 0 <= i < |a| && a[i] == b[0];
      var j :| 0 <= j < |b| && b[j] == a[0];
      LessTrichotomy(a[0], b[0]);
      TailMembers(a);
      TailMembers(b);
      AscendingIsUnique(a[1..], b[1..]);
    }
  }

  lemma TailMembers(a: seq<string>)
    requires a != [] && Ascending(a)
    ensures forall k :: k in a[1..] <==> k in a && k != a[0]
  {
    LessTrichotomy(a[0], a[0]);
    assert forall i :: 0 < i < |a| ==> Less(a[0], a[i]);
  }
}
