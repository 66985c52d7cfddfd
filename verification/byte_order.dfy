/**
 * Byte strings as the embedded store sees them: `bytes.HasPrefix`, the
 * lexicographic key order the store iterates in (`bytes.Compare`), and the
 * iterator's positioning step (the least stored key at or after a bound).
 */
module ByteOrder {

  import opened Wrappers

  newtype byte = b: int | 0 <= b < 256

  type Bytes = seq<byte>

  /** `bytes.HasPrefix(s, p)`. */
  predicate HasPrefix(s: Bytes, p: Bytes) {
    |p| <= |s| && s[..|p|] == p
  }

  /** Strict lexicographic order on unsigned bytes; a proper prefix sorts first. */
  predicate Less(a: Bytes, b: Bytes)
    decreases |a|
  {
    if |a| == 0 then |b| > 0
    else if |b| == 0 then false
    else a[0] < b[0] || (a[0] == b[0] && Less(a[1..], b[1..]))
  }

  predicate LessEq(a: Bytes, b: Bytes) {
    a == b || Less(a, b)
  }

  /** Keys listed in strictly ascending order: sorted and free of duplicates. */
  predicate StrictlyAscending(s: seq<Bytes>) {
    forall i, j :: 0 <= i < j < |s| ==> Less(s[i], s[j])
  }

  lemma {:induction false} LessIrreflexive(a: Bytes)
    ensures !Less(a, a)
    decreases |a|
  {
    if |a| > 0 {
      LessIrreflexive(a[1..]);
    }
  }

  lemma {:induction false} LessTransitive(a: Bytes, b: Bytes, c: Bytes)
    requires Less(a, b) && Less(b, c)
    ensures Less(a, c)
    decreases |a|
  {
    if |a| > 0 && a[0] == b[0] && b[0] == c[0] {
      LessTransitive(a[1..], b[1..], c[1..]);
    }
  }

  /** Any two keys are ordered one way or the other, and exactly one way. */
  lemma {:induction false} LessTrichotomy(a: Bytes, b: Bytes)
    ensures a == b || Less(a, b) || Less(b, a)
    ensures !(Less(a, b) && Less(b, a))
    decreases |a|
  {
    if |a| > 0 && |b| > 0 && a[0] == b[0] {
      LessTrichotomy(a[1..], b[1..]);
      if a[1..] == b[1..] {
        assert a == [a[0]] + a[1..] && b == [b[0]] + b[1..];
      }
    }
  }

  /** A common prefix does not change how two keys compare. */
  lemma {:induction false} LessUnderPrefix(p: Bytes, a: Bytes, b: Bytes)
    ensures Less(p + a, p + b) <==> Less(a, b)
    decreases |p|
  {
    if |p| > 0 {
      assert (p + a)[0] == p[0] == (p + b)[0];
      assert (p + a)[1..] == p[1..] + a;
      assert (p + b)[1..] == p[1..] + b;
      LessUnderPrefix(p[1..], a, b);
    } else {
      assert p + a == a && p + b == b;
    }
  }

  /** A prefix sorts at or before every key that carries it. */
  lemma {:induction false} PrefixSortsFirst(k: Bytes, p: Bytes)
    requires HasPrefix(k, p)
    ensures LessEq(p, k)
    decreases |p|
  {
    if |p| > 0 {
      assert k[1..][..|p| - 1] == p[1..];
      PrefixSortsFirst(k[1..], p[1..]);
      if p[1..] == k[1..] {
        assert p == [p[0]] + p[1..] && k == [k[0]] + k[1..];
      }
    } else if k != [] {
      assert Less(p, k);
    }
  }

  /**
   * Keys sharing a prefix are contiguous in key order: whatever sorts between
   * the prefix itself and a key that carries it carries it too.
   */
  lemma {:induction false} PrefixRangeContiguous(p: Bytes, x: Bytes, c: Bytes)
    requires HasPrefix(c, p)
    requires LessEq(p, x) && LessEq(x, c)
    ensures HasPrefix(x, p)
    decreases |p|
  {
    if |p| > 0 && x != p && x != c {
      assert x[0] == p[0] by {
        LessTrichotomy(x, c);
      }
      assert c[1..][..|p| - 1] == p[1..];
      var q, y, d := p[1..], x[1..], c[1..];
      assert LessEq(q, y) && LessEq(y, d);
      PrefixRangeContiguous(q, y, d);
      assert x[..|p|] == [x[0]] + y[..|q|];
    }
  }

  /** A strictly ascending listing is determined by the keys it holds. */
  lemma {:induction false} AscendingUnique(s: seq<Bytes>, t: seq<Bytes>)
    requires StrictlyAscending(s) && StrictlyAscending(t)
    requires forall k :: k in s <==> k in t
    ensures s == t
    decreases |s|
  {
    assert |t| > 0 ==> t[0] in t;
    assert |s| > 0 ==> s[0] in s;
    if s != [] {
      assert s[0] == t[0] by {
        assert s[0] in t && t[0] in s;
        var i :| 0 <= i < |s| && s[i] == t[0];
        var j :| 0 <= j < |t| && t[j] == s[0];
        if i > 0 && j > 0 {
          LessTrichotomy(s[0], t[0]);
        }
      }
      forall k
        ensures k in s[1..] <==> k in t[1..]
      {
        if k in s[1..] {
          var i :| 1 <= i < |s| && s[i] == k;
          LessIrreflexive(s[0]);
          assert k != t[0] && k in t;
          var j :| 0 <= j < |t| && t[j] == k;
          assert t[1..][j - 1] == k;
        }
        if k in t[1..] {
          var j :| 1 <= j < |t| && t[j] == k;
          LessIrreflexive(t[0]);
          assert k != s[0] && k in s;
          var i :| 0 <= i < |s| && s[i] == k;
          assert s[1..][i - 1] == k;
        }
      }
      AscendingUnique(s[1..], t[1..]);
      assert s == [s[0]] + s[1..] && t == [t[0]] + t[1..];
    }
  }

  /** The bound a positioning step respects: at or after (`Seek`), or strictly after (`Next`). */
  predicate Beyond(k: Bytes, bound: Bytes, inclusive: bool) {
    if inclusive then LessEq(bound, k) else Less(bound, k)
  }

  /**
   * The iterator's positioning step: the least key of `keys` at (or strictly
   * after) `bound`, or None when the iterator runs off the end.
   */
  method LeastBeyond(keys: set<Bytes>, bound: Bytes, inclusive: bool) returns (c: Option<Bytes>)
    ensures c.Some? ==> c.value in keys && Beyond(c.value, bound, inclusive)
    ensures c.Some? ==> forall k :: k in keys && Beyond(k, bound, inclusive) ==> LessEq(c.value, k)
    ensures c.None? ==> forall k :: k in keys ==> !Beyond(k, bound, inclusive)
  {
    c := None;
    var rest := keys;
    while rest != {}
      invariant rest <= keys
      invariant c.Some? ==> c.value in keys && Beyond(c.value, bound, inclusive)
      invariant c.Some? ==> forall k :: k in keys - rest && Beyond(k, bound, inclusive) ==> LessEq(c.value, k)
      invariant c.None? ==> forall k :: k in keys - rest ==> !Beyond(k, bound, inclusive)
      decreases rest
    {
      var k :| k in rest;
      if Beyond(k, bound, inclusive) {
        if c.None? {
          c := Some(k);
        } else if Less(k, c.value) {
          forall j | j in keys - rest && Beyond(j, bound, inclusive) && j != c.value
            ensures Less(k, j)
          {
            LessTransitive(k, c.value, j);
          }
          c := Some(k);
        } else {
          LessTrichotomy(k, c.value);
        }
      }
      rest := rest - {k};
    }
  }
}
