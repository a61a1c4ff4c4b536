/**
`ORDER BY sequence` over blob keys: SQLite compares blobs byte by byte.
*/
module OrderedKeys {
  import opened Base
  import opened Positional
  import opened ExternalDb

  lemma {:induction false} LexTotal(a: Key, b: Key)
    ensures a == b || LexLess(a, b) || LexLess(b, a)
    decreases |a|
  {
    if a != [] && b != [] && a[0] == b[0] {
      LexTotal(a[1..], b[1..]);
      assert a == [a[0]] + a[1..] && b == [b[0]] + b[1..];
    }
  }

  lemma {:induction false} LexTransitive(a: Key, b: Key, c: Key)
    requires LexLess(a, b) && LexLess(b, c)
    ensures LexLess(a, c)
    decreases |a|
  {
    if a != [] && a[0] == b[0] && b[0] == c[0] {
      LexTransitive(a[1..], b[1..], c[1..]);
    }
  }

  ghost predicate Ascending(keys: seq<Key>) {
    forall i, j :: 0 <= i < j < |keys| ==> LexLess(keys[i], keys[j])
  }

  /** Puts a key before the first greater one. */
  method InsertKey(keys: seq<Key>, key: Key) returns (r: seq<Key>)
    requires Ascending(keys) && key !in keys
    ensures Ascending(r) && forall k :: k in r <==> k in keys || k == key
  {
    var n := 0;
    while n < |keys| && LexLess(keys[n], key)
      invariant n <= |keys|
      invariant forall i :: 0 <= i < n ==> LexLess(keys[i], key)
    {
      n := n + 1;
    }
    r := keys[..n] + [key] + keys[n..];
    forall i | n <= i < |keys|
      ensures LexLess(key, keys[i])
    {
      assert keys[n] in keys;
      LexTotal(keys[n], key);
      if n < i {
        LexTransitive(key, keys[n], keys[i]);
      }
    }
  }

  /** The whole table in key order. */
  method SelectOrdered(receipts: map<Key, ReceiptRow>) returns (keys: seq<Key>)
    ensures Ordered(keys, receipts)
  {
    keys := [];
    var rest := receipts.Keys;
    while rest != {}
      invariant rest <= receipts.Keys && Ascending(keys)
      invariant forall k :: k in keys <==> k in receipts.Keys - rest
      decreases |rest|
    {
      var key :| key in rest;
      keys := InsertKey(keys, key);
      rest := rest - {key};
    }
  }

  lemma {:induction false} LexIrreflexive(a: Key)
    ensures !LexLess(a, a)
    decreases |a|
  {
    if a != [] {
      LexIrreflexive(a[1..]);
    }
  }

  /** The greatest key ends every ascending listing. */
  lemma SameLast(a: seq<Key>, b: seq<Key>)
    requires Ascending(a) && Ascending(b) && a != [] && b != []
    requires forall k :: k in a <==> k in b
    ensures a[|a| - 1] == b[|b| - 1]
  {
    var x, y := a[|a| - 1], b[|b| - 1];
    assert x in a && y in b;
    if x != y {
      assert LexLess(x, y) by {
        var i :| 0 <= i < |b| && b[i] == x;
      }
      assert LexLess(y, x) by {
        var i :| 0 <= i < |a| && a[i] == y;
      }
      LexTransitive(x, y, x);
      LexIrreflexive(x);
      assert false;
    }
  }

  lemma FrontOfListing(a: seq<Key>, k: Key)
    requires Ascending(a) && a != []
    ensures k in a[..|a| - 1] <==> k in a && k != a[|a| - 1]
  {
    var n := |a| - 1;
    LexIrreflexive(a[n]);
    if k in a && k != a[n] {
      var i :| 0 <= i < |a| && a[i] == k;
      assert a[..n][i] == k;
    }
  }

  /** A table has one ordered listing. */
  lemma {:induction false} OneListing(a: seq<Key>, b: seq<Key>)
    requires Ascending(a) && Ascending(b)
    requires forall k :: k in a <==> k in b
    ensures a == b
    decreases |a|
  {
    if a == [] {
      Member(b);
    } else {
      assert a[0] in a;
      SameLast(a, b);
      var a', b' := a[..|a| - 1], b[..|b| - 1];
      forall k
        ensures k in a' <==> k in b'
      {
        FrontOfListing(a, k);
        FrontOfListing(b, k);
      }
      OneListing(a', b');
      assert a == a' + [a[|a| - 1]] && b == b' + [b[|b| - 1]];
    }
  }
}
