/** Column names: which identifiers the builder lets through, and the sorted key lists that make
    its statements independent of Go's map iteration order. */
module Names {

  predicate IdentChar(c: char) {
    'a' <= c <= 'z' || 'A' <= c <= 'Z' || '0' <= c <= '9' || c == '_' || c == '.'
  }

  /** SanitizeIdentifier keeps the name. */
  predicate ValidIdent(s: string) {
    s != "" && forall i :: 0 <= i < |s| ==> IdentChar(s[i])
  }

  /** Byte-wise string order. */
  predicate Less(a: string, b: string) {
    if b == "" then false
    else if a == "" then true
    else if a[0] == b[0] then Less(a[1..], b[1..])
    else a[0] < b[0]
  }

  lemma {:induction false} LessTransitive(a: string, b: string, c: string)
    requires Less(a, b) && Less(b, c)
    ensures Less(a, c)
  {
    if a != "" && a[0] == b[0] && b[0] == c[0] {
      LessTransitive(a[1..], b[1..], c[1..]);
    }
  }

  lemma {:induction false} LessTotal(a: string, b: string)
    ensures Less(a, b) || a == b || Less(b, a)
    ensures !(Less(a, b) && Less(b, a)) && !Less(a, a)
    decreases |a|
  {
    if a != "" {
      LessTotal(a[1..], a[1..]);
    }
    if a != "" && b != "" {
      LessTotal(a[1..], b[1..]);
      if a[1..] == b[1..] && a[0] == b[0] {
        assert a == [a[0]] + a[1..] && b == [b[0]] + b[1..];
      }
    }
  }

  predicate Ascending(keys: seq<string>) {
    forall i, j :: 0 <= i < j < |keys| ==> Less(keys[i], keys[j])
  }

  ghost predicate IsKeyList(keys: seq<string>, s: set<string>) {
    Ascending(keys) && forall k :: k in keys <==> k in s
  }

  function Insert(keys: seq<string>, k: string): (r: seq<string>)
    requires Ascending(keys) && k !in keys
    ensures Ascending(r) && |r| == |keys| + 1
    ensures forall x :: x in r <==> x in keys || x == k
  {
    if keys == [] then [k]
    else
      LessTotal(k, keys[0]);
      if Less(k, keys[0]) then
        BelowAll(k, keys);
        [k] + keys
      else
        var rest := Insert(keys[1..], k);
        HeadBelow(keys, k);
        [keys[0]] + rest
  }

  lemma BelowAll(k: string, keys: seq<string>)
    requires Ascending(keys) && keys != [] && Less(k, keys[0])
    ensures forall x :: x in keys ==> Less(k, x)
  {
    forall i | 0 <= i < |keys|
      ensures Less(k, keys[i])
    {
      if i > 0 { LessTransitive(k, keys[0], keys[i]); }
    }
  }

  lemma HeadBelow(keys: seq<string>, k: string)
    requires Ascending(keys) && keys != [] && Less(keys[0], k)
    ensures forall x :: x in keys[1..] || x == k ==> Less(keys[0], x)
  {
  }

  /** Sorting leaves one possible order. */
  lemma {:induction false} KeyListUnique(a: seq<string>, b: seq<string>)
    requires Ascending(a) && Ascending(b) && forall k :: k in a <==> k in b
    ensures a == b
    decreases |a|
  {
    if b != [] {
      assert b[0] in a;
    }
    if a != [] {
      assert a[0] in b;
      assert b[0] in a;
      var i :| 0 <= i < |b| && b[i] == a[0];
      var j :| 0 <= j < |a| && a[j] == b[0];
      LessTotal(a[0], b[0]);
      assert a[0] == b[0];
      LessTotal(a[0], a[0]);
      forall k
        ensures k in a[1..] <==> k in b[1..]
      {
        TailMember(a, k);
        TailMember(b, k);
      }
      KeyListUnique(a[1..], b[1..]);
      assert a == [a[0]] + a[1..] && b == [b[0]] + b[1..];
    }
  }

  lemma TailMember(a: seq<string>, k: string)
    requires Ascending(a) && a != []
    ensures k in a[1..] <==> k in a && k != a[0]
  {
    LessTotal(a[0], a[0]);
    if k in a && k != a[0] {
      var i :| 0 <= i < |a| && a[i] == k;
      assert a[1..][i - 1] == k;
    }
  }

  ghost function KeyList(s: set<string>): (keys: seq<string>)
    ensures IsKeyList(keys, s)
  {
    if s == {} then []
    else
      var k :| k in s;
      Insert(KeyList(s - {k}), k)
  }

  /** The keys of a map in sorted order, invalid names dropped; the map is walked in any order. */
  method SortedKeys<V>(m: map<string, V>) returns (keys: seq<string>)
    ensures keys == KeyList(set k | k in m && ValidIdent(k))
    ensures forall i :: 0 <= i < |keys| ==> keys[i] in m && ValidIdent(keys[i])
  {
    keys := [];
    var todo := m.Keys;
    while todo != {}
      invariant todo <= m.Keys && Ascending(keys)
      invariant forall k :: k in keys <==> k in m && k !in todo && ValidIdent(k)
    {
      var k :| k in todo;
      todo := todo - {k};
      if ValidIdent(k) {
        keys := Insert(keys, k);
      }
    }
    KeyListUnique(keys, KeyList(set k | k in m && ValidIdent(k)));
  }
}
