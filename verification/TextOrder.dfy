/** The order in which SQLite and Python compare text: by code point, a proper prefix first. */
module TextOrder {

  predicate Less(a: string, b: string) {
    if b == "" then false
    else if a == "" then true
    else if a[0] != b[0] then a[0] < b[0]
    else Less(a[1..], b[1..])
  }

  lemma {:induction false} LessTotal(a: string, b: string)
    ensures Less(a, b) || a == b || Less(b, a)
    ensures !(Less(a, b) && Less(b, a))
    ensures !Less(a, a)
  {
    if a != "" && b != "" && a[0] == b[0] {
      LessTotal(a[1..], b[1..]);
      assert a == [a[0]] + a[1..] && b == [b[0]] + b[1..];
    }
    if a != "" { LessTotal(a[1..], a[1..]); }
  }

  lemma {:induction false} LessTransitive(a: string, b: string, c: string)
    requires Less(a, b) && Less(b, c)
    ensures Less(a, c)
  {
    if a != "" && a[0] == b[0] && b[0] == c[0] {
      LessTransitive(a[1..], b[1..], c[1..]);
    }
  }

  /** A common beginning does not influence the order. */
  lemma {:induction false} LessAfter(prefix: string, a: string, b: string)
    ensures Less(prefix + a, prefix + b) <==> Less(a, b)
  {
    if prefix == "" {
      assert prefix + a == a && prefix + b == b;
    } else {
      assert (prefix + a)[1..] == prefix[1..] + a && (prefix + b)[1..] == prefix[1..] + b;
      LessAfter(prefix[1..], a, b);
    }
  }

  // ------------------------------------------------------------ sorted lists

  predicate Sorted(keys: seq<string>) {
    forall i, j :: 0 <= i < j < |keys| ==> Less(keys[i], keys[j])
  }

  ghost predicate SortedListOf(sorted: seq<string>, keys: set<string>) {
    Sorted(sorted) && forall k :: k in sorted <==> k in keys
  }

  /** A set has one sorted list. */
  lemma {:induction false} SortedListIsUnique(a: seq<string>, b: seq<string>)
    requires Sorted(a) && Sorted(b) && forall k :: k in a <==> k in b
    ensures a == b
  {
    assert a != [] ==> a[0] in b;
    assert b != [] ==> b[0] in a;
    if a != [] {
      LessTotal(a[0], b[0]);
      assert a[0] == b[0];
      forall k ensures k in a[1..] <==> k in b[1..] {
        LessTotal(a[0], k);
        if k in a[1..] { assert k in b; }
        if k in b[1..] { assert k in a; }
      }
      SortedListIsUnique(a[1..], b[1..]);
    }
  }

  function InsertKey(keys: seq<string>, key: string): (r: seq<string>)
    requires Sorted(keys)
    ensures Sorted(r) && forall k :: k in r <==> k in keys || k == key
  {
    if keys == [] then [key]
    else if keys[0] == key then keys
    else if Less(key, keys[0]) then
      LessBeforeAll(key, keys);
      [key] + keys
    else
      LessTotal(key, keys[0]);
      var rest := InsertKey(keys[1..], key);
      assert forall k :: k in rest ==> Less(keys[0], k);
      [keys[0]] + rest
  }

  lemma LessBeforeAll(key: string, keys: seq<string>)
    requires Sorted(keys) && keys != [] && Less(key, keys[0])
    ensures forall k :: k in keys ==> Less(key, k)
  {
    forall k | k in keys ensures Less(key, k) {
      if k != keys[0] { LessTransitive(key, keys[0], k); }
    }
  }

  /** The members of a list in order, without repetition. */
  function SortDistinct(keys: seq<string>): (sorted: seq<string>)
    ensures Sorted(sorted) && forall k :: k in sorted <==> k in keys
  {
    if keys == [] then []
    else
      assert keys == keys[..|keys| - 1] + [keys[|keys| - 1]];
      InsertKey(SortDistinct(keys[..|keys| - 1]), keys[|keys| - 1])
  }

  /** `sorted(keys)`. */
  method SortKeys(keys: set<string>) returns (sorted: seq<string>)
    ensures SortedListOf(sorted, keys)
  {
    sorted := [];
    var rest := keys;
    while rest != {}
      invariant rest <= keys && Sorted(sorted)
      invariant forall k :: k in sorted <==> k in keys && k !in rest
      invariant forall k, l :: k in sorted && l in rest ==> Less(k, l)
      decreases rest
    {
      var least := LeastKey(rest);
      rest := rest - {least};
      sorted := sorted + [least];
    }
  }

  method LeastKey(keys: set<string>) returns (least: string)
    requires keys != {}
    ensures least in keys && forall k :: k in keys && k != least ==> Less(least, k)
  {
    least :| least in keys;
    var rest := keys - {least};
    while rest != {}
      invariant rest <= keys && least in keys && least !in rest
      invariant forall k :: k in keys && k !in rest && k != least ==> Less(least, k)
      decreases rest
    {
      var k :| k in rest;
      rest := rest - {k};
      LessTotal(k, least);
      if Less(k, least) {
        forall l | l in keys && l !in rest && l != k ensures Less(k, l) {
          if l != least { LessTransitive(k, least, l); }
        }
        least := k;
      }
    }
  }
}
