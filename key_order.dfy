/**
 * The order in which the document store returns ids: ordinal lexicographic
 * order on strings, and prefix scans (`startsWith` / `startAfter`) over a map
 * from document ids to documents.
 */
module KeyOrder {
  import opened Wrappers

  /** Strict lexicographic order, comparing characters by code point. */
  predicate Less(s: string, t: string)
    decreases |s|
  {
    if s == [] then t != []
    else if t == [] then false
    else s[0] < t[0] || (s[0] == t[0] && Less(s[1..], t[1..]))
  }

  lemma {:induction false} LessIrreflexive(s: string)
    ensures !Less(s, s)
    decreases |s|
  {
    if s != [] { LessIrreflexive(s[1..]); }
  }

  lemma {:induction false} LessAsymmetric(s: string, t: string)
    ensures Less(s, t) ==> !Less(t, s)
    decreases |s|
  {
    if s != [] && t != [] && s[0] == t[0] { LessAsymmetric(s[1..], t[1..]); }
  }

  lemma {:induction false} LessTransitive(a: string, b: string, c: string)
    requires Less(a, b) && Less(b, c)
    ensures Less(a, c)
    decreases |a|
  {
    if a != [] && a[0] == b[0] && b[0] == c[0] {
      LessTransitive(a[1..], b[1..], c[1..]);
    }
  }

  lemma {:induction false} LessTotal(s: string, t: string)
    ensures s == t || Less(s, t) || Less(t, s)
    decreases |s|
  {
    if s == [] || t == [] {
    } else if s[0] < t[0] {
      assert Less(s, t);
    } else if t[0] < s[0] {
      assert Less(t, s);
    } else {
      LessTotal(s[1..], t[1..]);
      if s[1..] == t[1..] {
        assert s == [s[0]] + s[1..] && t == [t[0]] + t[1..];
      }
    }
  }

  /** A common leading part does not change how two ids compare. */
  lemma {:induction false} LessCommonPrefix(p: string, s: string, t: string)
    ensures Less(p + s, p + t) <==> Less(s, t)
    decreases |p|
  {
    if p != [] {
      assert (p + s)[1..] == p[1..] + s;
      assert (p + t)[1..] == p[1..] + t;
      LessCommonPrefix(p[1..], s, t);
    } else {
      assert p + s == s && p + t == t;
    }
  }

  /** Between two ids of equal length, whatever follows does not matter. */
  lemma {:induction false} LessEqualLengthAppend(s: string, t: string, a: string, b: string)
    requires |s| == |t| && Less(s, t)
    ensures Less(s + a, t + b)
    decreases |s|
  {
    assert s != [] && t != [];
    if s[0] == t[0] {
      assert (s + a)[1..] == s[1..] + a;
      assert (t + b)[1..] == t[1..] + b;
      LessEqualLengthAppend(s[1..], t[1..], a, b);
    }
  }

  predicate StrictlySorted(keys: seq<string>) {
    forall i, j :: 0 <= i < j < |keys| ==> Less(keys[i], keys[j])
  }

  lemma ConsSorted(k: string, rest: seq<string>)
    requires StrictlySorted(rest)
    requires forall r :: r in rest ==> Less(k, r)
    ensures StrictlySorted([k] + rest)
  {
    forall i, j | 0 <= i < j < |[k] + rest| ensures Less(([k] + rest)[i], ([k] + rest)[j]) {
      if i == 0 { assert ([k] + rest)[j] == rest[j - 1]; }
    }
  }

  predicate IsMinimum(k: string, s: set<string>) {
    k in s && forall r :: r in s ==> r == k || Less(k, r)
  }

  lemma {:induction false} MinimumExists(s: set<string>)
    requires s != {}
    ensures exists k :: IsMinimum(k, s)
    decreases |s|
  {
    var x :| x in s;
    if s - {x} == {} {
      forall r | r in s ensures r == x {
        assert r !in s - {x};
      }
      assert IsMinimum(x, s);
    } else {
      MinimumExists(s - {x});
      var m :| IsMinimum(m, s - {x});
      LessTotal(x, m);
      if Less(x, m) {
        forall r | r in s ensures r == x || Less(x, r) {
          if r != x && r != m { LessTransitive(x, m, r); }
        }
        assert IsMinimum(x, s);
      } else {
        assert IsMinimum(m, s);
      }
    }
  }

  /** The elements of a finite set of ids in ascending order. */
  ghost function SortedSeq(s: set<string>): (r: seq<string>)
    ensures StrictlySorted(r)
    ensures forall k :: k in r <==> k in s
    decreases |s|
  {
    if s == {} then []
    else
      MinimumExists(s);
      var k :| IsMinimum(k, s);
      var rest := SortedSeq(s - {k});
      ConsSorted(k, rest);
      [k] + rest
  }

  lemma HeadIsElement(b: seq<string>)
    ensures b != [] ==> b[0] in b
  {
  }

  /** Two ascending lists with the same elements are the same list. */
  lemma {:induction false} SortedUnique(a: seq<string>, b: seq<string>)
    requires StrictlySorted(a) && StrictlySorted(b)
    requires forall k :: k in a <==> k in b
    ensures a == b
    decreases |a|
  {
    if a == [] {
      HeadIsElement(b);
    } else {
      assert b != [] by { assert a[0] in b; }
      if a[0] != b[0] {
        assert a[0] in b && b[0] in a;
        var i :| 0 <= i < |a| && a[i] == b[0];
        var j :| 0 <= j < |b| && b[j] == a[0];
        assert Less(a[0], b[0]);
        assert Less(b[0], a[0]);
        LessAsymmetric(a[0], b[0]);
        assert false;
      }
      forall k ensures k in a[1..] <==> k in b[1..] {
        if k in a[1..] {
          var i :| 1 <= i < |a| && a[i] == k;
          assert Less(a[0], k);
          LessIrreflexive(k);
          assert k in a;
          var j :| 0 <= j < |b| && b[j] == k;
          assert j != 0;
          assert b[1..][j - 1] == k;
        }
        if k in b[1..] {
          var j :| 1 <= j < |b| && b[j] == k;
          assert Less(b[0], k);
          LessIrreflexive(k);
          assert k in b;
          var i :| 0 <= i < |a| && a[i] == k;
          assert i != 0;
          assert a[1..][i - 1] == k;
        }
      }
      SortedUnique(a[1..], b[1..]);
      assert a == [a[0]] + a[1..] && b == [b[0]] + b[1..];
    }
  }

  /** What a scan with `startsWith: prefix` and the optional `startAfter` admits. */
  predicate InRange(k: string, prefix: string, after: Option<string>) {
    prefix <= k && (after.Some? ==> Less(after.value, k))
  }

  /** The ids a prefix scan returns, in the order it returns them. */
  ghost function Scan<V>(m: map<string, V>, prefix: string, after: Option<string>): (r: seq<string>)
    ensures StrictlySorted(r)
    ensures forall k :: k in r <==> k in m && InRange(k, prefix, after)
  {
    SortedSeq(set k | k in m && InRange(k, prefix, after))
  }

  /** The store's streaming read: the matching ids, smallest first. */
  method Stream<V>(m: map<string, V>, prefix: string, after: Option<string>) returns (keys: seq<string>)
    ensures keys == Scan(m, prefix, after)
  {
    var all := set k | k in m && InRange(k, prefix, after);
    var remaining := all;
    keys := [];
    while remaining != {}
      invariant StrictlySorted(keys)
      invariant remaining <= all
      invariant forall k :: k in keys <==> k in all && k !in remaining
      invariant forall i, r :: 0 <= i < |keys| && r in remaining ==> Less(keys[i], r)
      decreases |remaining|
    {
      MinimumExists(remaining);
      var k :| IsMinimum(k, remaining);
      keys := keys + [k];
      remaining := remaining - {k};
    }
    SortedUnique(keys, Scan(m, prefix, after));
  }
}
