/** The order and the character tests that the modelled code uses on Rust strings. */
module Text {
  /**
   The order of Rust's `str`: lexicographic. Comparing UTF-8 bytes and comparing the
   encoded characters give the same answer.
   */
  predicate Before(a: string, b: string)
  {
    if b == [] then false
    else if a == [] then true
    else a[0] < b[0] || (a[0] == b[0] && Before(a[1..], b[1..]))
  }

  lemma {:induction false} BeforeIsTotal(a: string, b: string)
    ensures Before(a, b) || Before(b, a) || a == b
    ensures !(Before(a, b) && Before(b, a))
    ensures !Before(a, a)
    decreases |a| + |b|
  {
    if a != [] {
      if b != [] {
        BeforeIsTotal(a[1..], b[1..]);
        assert a == [a[0]] + a[1..] && b == [b[0]] + b[1..];
      }
      BeforeIsTotal(a[1..], []);
      IrreflexiveStep(a);
    }
  }

  lemma {:induction false} IrreflexiveStep(a: string)
    ensures !Before(a, a)
  {
    if a != [] {
      IrreflexiveStep(a[1..]);
    }
  }

  lemma {:induction false} BeforeIsTransitive(a: string, b: string, c: string)
    requires Before(a, b) && Before(b, c)
    ensures Before(a, c)
  {
    if a != [] && a[0] == b[0] && b[0] == c[0] {
      BeforeIsTransitive(a[1..], b[1..], c[1..]);
    }
  }

  /** A common prefix does not change the order of two strings. */
  lemma {:induction false} PrefixKeepsOrder(prefix: string, a: string, b: string)
    ensures Before(prefix + a, prefix + b) == Before(a, b)
  {
    if prefix == [] {
      assert prefix + a == a && prefix + b == b;
    } else {
      PrefixKeepsOrder(prefix[1..], a, b);
      assert (prefix + a)[1..] == prefix[1..] + a;
      assert (prefix + b)[1..] == prefix[1..] + b;
    }
  }

  predicate Ascending(s: seq<string>)
  {
    forall i, j :: 0 <= i < j < |s| ==> Before(s[i], s[j])
  }

  ghost predicate IsLeast(m: string, keys: set<string>)
  {
    m in keys && forall k :: k in keys && k != m ==> Before(m, k)
  }

  lemma {:induction false} LeastExists(keys: set<string>)
    requires keys != {}
    ensures exists m :: IsLeast(m, keys)
    decreases |keys|
  {
    var k :| k in keys;
    if keys == {k} {
      assert IsLeast(k, keys);
    } else {
      var rest := keys - {k};
      assert keys == rest + {k};
      LeastExists(keys - {k});
      var m :| IsLeast(m, keys - {k});
      BeforeIsTotal(k, m);
      if Before(k, m) {
        forall x | x in keys && x != k ensures Before(k, x) {
          if x != m { BeforeIsTransitive(k, m, x); }
        }
        assert IsLeast(k, keys);
      } else {
        assert IsLeast(m, keys);
      }
    }
  }

  lemma LeastIsUnique(keys: set<string>)
    ensures forall m, n | m in keys && n in keys ::
              && (forall k :: k in keys && k != m ==> Before(m, k))
              && (forall k :: k in keys && k != n ==> Before(n, k))
              ==> m == n
  {
    forall m, n | m in keys && n in keys && Before(m, n) && Before(n, m) ensures false {
      BeforeIsTotal(m, n);
    }
  }

  function Least(keys: set<string>): (m: string)
    requires keys != {}
    ensures IsLeast(m, keys)
  {
    LeastExists(keys);
    LeastIsUnique(keys);
    var m :| m in keys && forall k :: k in keys && k != m ==> Before(m, k);
    m
  }

  /** The keys in the order a `BTreeMap` or `BTreeSet` iterates over them. */
  function SortedKeys(keys: set<string>): (s: seq<string>)
    ensures Ascending(s)
    ensures forall k :: k in s <==> k in keys
    decreases |keys|
  {
    if keys == {} then []
    else
      var m := Least(keys);
      var rest := SortedKeys(keys - {m});
      assert forall i :: 0 <= i < |rest| ==> rest[i] in rest && Before(m, rest[i]);
      [m] + rest
  }

  /** A set has only one ascending enumeration. */
  lemma {:induction false} AscendingIsUnique(s: seq<string>, t: seq<string>)
    requires Ascending(s) && Ascending(t)
    requires forall k :: k in s <==> k in t
    ensures s == t
    decreases |s|
  {
    assert |t| > 0 ==> t[0] in s;
    if s != [] {
      assert s[0] in s;
      assert t[0] in t;
      var i :| 0 <= i < |t| && t[i] == s[0];
      var j :| 0 <= j < |s| && s[j] == t[0];
      BeforeIsTotal(s[0], t[0]);
      assert s[0] == t[0];
      forall k ensures k in s[1..] <==> k in t[1..] {
        DropFirst(s, k);
        DropFirst(t, k);
      }
      AscendingIsUnique(s[1..], t[1..]);
      assert s == [s[0]] + s[1..] && t == [t[0]] + t[1..];
    }
  }

  lemma DropFirst(s: seq<string>, k: string)
    requires Ascending(s) && s != []
    ensures k in s[1..] <==> k in s && k != s[0]
  {
    if k in s[1..] {
      var i :| 0 <= i < |s[1..]| && s[1..][i] == k;
      assert s[i + 1] == k && Before(s[0], s[i + 1]);
      IrreflexiveStep(s[0]);
    }
    if k in s && k != s[0] {
      var i :| 0 <= i < |s| && s[i] == k;
      assert s[1..][i - 1] == k;
    }
  }

  /** In an ascending sequence everything before a position is smaller than what stands there. */
  lemma AscendingPosition(s: seq<string>, i: nat)
    requires Ascending(s) && i < |s|
    ensures s[i] !in s[..i]
    ensures forall x :: x in s[..i] ==> Before(x, s[i])
    ensures s[..i + 1] == s[..i] + [s[i]]
  {
    IrreflexiveStep(s[i]);
    assert s[..i + 1] == s[..i] + [s[i]];
  }

  lemma AscendingAppend(s: seq<string>, x: string)
    requires Ascending(s) && forall y :: y in s ==> Before(y, x)
    ensures Ascending(s + [x])
  {
  }

  /** `char::is_whitespace`: the Unicode property White_Space. */
  predicate IsWhitespace(c: char)
  {
    || '\U{9}' <= c <= '\U{d}'
    || c in {'\U{20}', '\U{85}', '\U{a0}', '\U{1680}'}
    || '\U{2000}' <= c <= '\U{200a}'
    || c in {'\U{2028}', '\U{2029}', '\U{202f}', '\U{205f}', '\U{3000}'}
  }

  /** `trim().is_empty()`. */
  predicate Blank(s: string)
  {
    forall i :: 0 <= i < |s| ==> IsWhitespace(s[i])
  }

  predicate HasWhitespace(s: string)
  {
    exists i :: 0 <= i < |s| && IsWhitespace(s[i])
  }

  /** `to_ascii_uppercase`. */
  function ToAsciiUpper(s: string): (r: string)
    ensures |r| == |s|
  {
    seq(|s|, i requires 0 <= i < |s| => if 'a' <= s[i] <= 'z' then s[i] - 'a' + 'A' else s[i])
  }

  /** The elements of `s` that are not in `exclude`, kept in order. */
  function Without(s: seq<string>, exclude: string): (r: seq<string>)
  {
    if s == [] then []
    else (if s[0] == exclude then [] else [s[0]]) + Without(s[1..], exclude)
  }
}
