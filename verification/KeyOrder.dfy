/** The order in which `std::map` visits its string keys. */
module KeyOrder {

  predicate Less(a: string, b: string) {
    if a == [] || b == [] then a == [] && b != []
    else a[0] < b[0] || (a[0] == b[0] && Less(a[1..], b[1..]))
  }

  /** The texts agree up to position k, where the first one ends or has the smaller character. */
  ghost predicate SmallerAt(a: string, b: string, k: nat) {
    k <= |a| && k < |b| && a[..k] == b[..k] && (k == |a| || a[k] < b[k])
  }

  /** The order is decided by the first difference. */
  lemma {:induction false} LessByFirstDifference(a: string, b: string)
    ensures Less(a, b) <==> exists k: nat :: SmallerAt(a, b, k)
  {
    if a == [] || b == [] || a[0] < b[0] {
      assert Less(a, b) ==> SmallerAt(a, b, 0);
    } else {
      LessByFirstDifference(a[1..], b[1..]);
      if Less(a, b) {
        var k: nat :| SmallerAt(a[1..], b[1..], k);
        assert a[..k + 1] == [a[0]] + a[1..][..k] && b[..k + 1] == [b[0]] + b[1..][..k];
        assert SmallerAt(a, b, k + 1);
      }
      if k: nat :| SmallerAt(a, b, k) {
        assert k > 0 && a[0] == a[..k][0] && b[0] == b[..k][0];
        assert a[1..][..k - 1] == a[..k][1..] && b[1..][..k - 1] == b[..k][1..];
        assert SmallerAt(a[1..], b[1..], k - 1);
      }
    }
  }

  lemma {:induction false} LessTotal(a: string, b: string)
    ensures a == b || Less(a, b) || Less(b, a)
    ensures !(Less(a, b) && Less(b, a)) && !Less(a, a)
  {
    if a != [] && b != [] {
      LessTotal(a[1..], b[1..]);
      assert a == [a[0]] + a[1..] && b == [b[0]] + b[1..];
    }
    if a != [] {
      LessTotal(a[1..], a[1..]);
    }
  }

  lemma {:induction false} LessTransitive(a: string, b: string, c: string)
    requires Less(a, b) && Less(b, c)
    ensures Less(a, c)
  {
    if a != [] && a[0] == b[0] == c[0] {
      LessTransitive(a[1..], b[1..], c[1..]);
    }
  }

  ghost predicate StrictlyAscending(keys: seq<string>) {
    forall i, j :: 0 <= i < j < |keys| ==> Less(keys[i], keys[j])
  }

  /** The keys of the set, each once, in ascending order. */
  ghost predicate InOrder(keys: seq<string>, all: set<string>) {
    StrictlyAscending(keys) && (forall k :: k in all <==> k in keys)
  }

  /** The position where a new key belongs, looking down from position n. */
  function InsertionPoint(keys: seq<string>, key: string, n: nat): (at: nat)
    requires StrictlyAscending(keys) && key !in keys && n <= |keys|
    requires forall i :: n <= i < |keys| ==> Less(key, keys[i])
    ensures at <= |keys|
    ensures forall i :: 0 <= i < at ==> Less(keys[i], key)
    ensures forall i :: at <= i < |keys| ==> Less(key, keys[i])
  {
    if n == 0 then 0
    else
      LessTotal(key, keys[n - 1]);
      if Less(key, keys[n - 1]) then InsertionPoint(keys, key, n - 1)
      else
        BelowAll(keys, key, n);
        n
  }

  lemma BelowAll(keys: seq<string>, key: string, n: nat)
    requires StrictlyAscending(keys) && 0 < n <= |keys| && Less(keys[n - 1], key)
    ensures forall i :: 0 <= i < n ==> Less(keys[i], key)
  {
    forall i | 0 <= i < n ensures Less(keys[i], key) {
      if i < n - 1 {
        LessTransitive(keys[i], keys[n - 1], key);
      }
    }
  }

  lemma InsertInOrder(keys: seq<string>, key: string, at: nat, all: set<string>)
    requires InOrder(keys, all) && key !in all && at <= |keys|
    requires forall i :: 0 <= i < at ==> Less(keys[i], key)
    requires forall i :: at <= i < |keys| ==> Less(key, keys[i])
    ensures InOrder(keys[..at] + [key] + keys[at..], all + {key})
  {
    var inserted := keys[..at] + [key] + keys[at..];
    assert keys == keys[..at] + keys[at..];
    forall k ensures k in all + {key} <==> k in inserted {
      assert k in keys <==> k in keys[..at] || k in keys[at..];
    }
  }

  /** The keys of a map in the order of iteration. */
  method KeysInOrder(all: set<string>) returns (keys: seq<string>)
    ensures InOrder(keys, all)
  {
    keys := [];
    var left := all;
    while left != {}
      invariant left <= all
      invariant InOrder(keys, all - left)
      decreases left
    {
      var k :| k in left;
      var at := InsertionPoint(keys, k, |keys|);
      InsertInOrder(keys, k, at, all - left);
      assert all - (left - {k}) == all - left + {k};
      keys := keys[..at] + [k] + keys[at..];
      left := left - {k};
    }
  }

  lemma {:induction false} OrderUnique(x: seq<string>, y: seq<string>, all: set<string>)
    requires InOrder(x, all) && InOrder(y, all)
    ensures x == y
    decreases |x|
  {
    if x == [] {
      assert all == {};
      if y != [] {
        NonEmpty(y, all);
      }
    } else {
      var m, n := |x| - 1, |y| - 1;
      LastIsGreatest(x, y, all);
      var a := x[m];
      DropLast(x, all);
      DropLast(y, all);
      OrderUnique(x[..m], y[..n], all - {a});
    }
  }

  lemma NonEmpty(x: seq<string>, all: set<string>)
    requires InOrder(x, all) && x != []
    ensures all != {}
  {
    assert x[0] in all;
  }

  lemma LastIsGreatest(x: seq<string>, y: seq<string>, all: set<string>)
    requires InOrder(x, all) && InOrder(y, all) && x != []
    ensures y != [] && x[|x| - 1] == y[|y| - 1]
  {
    assert x[0] in all && x[|x| - 1] in all;
    var i: nat :| i < |y| && y[i] == x[|x| - 1];
    assert y[|y| - 1] in all;
    var j: nat :| j < |x| && x[j] == y[|y| - 1];
    LessTotal(x[|x| - 1], y[|y| - 1]);
  }

  lemma DropLast(x: seq<string>, all: set<string>)
    requires InOrder(x, all) && x != []
    ensures InOrder(x[..|x| - 1], all - {x[|x| - 1]})
  {
    var m := |x| - 1;
    assert x == x[..m] + [x[m]];
    forall i | 0 <= i < m ensures x[i] != x[m] {
      LessTotal(x[i], x[m]);
    }
  }

  lemma OrderExists(all: set<string>)
    ensures exists keys :: InOrder(keys, all)
    decreases all
  {
    if all == {} {
      assert InOrder([], all);
    } else {
      var k :| k in all;
      OrderExists(all - {k});
      var keys :| InOrder(keys, all - {k});
      var at := InsertionPoint(keys, k, |keys|);
      InsertInOrder(keys, k, at, all - {k});
      assert all - {k} + {k} == all;
    }
  }

  ghost function Ordered(all: set<string>): (keys: seq<string>)
    ensures InOrder(keys, all)
  {
    OrderExists(all);
    var keys :| InOrder(keys, all);
    keys
  }
}
