/**
 * `Array#sort` followed by `Array#uniq` on strings, as used for the
 * `properties` attribute of a manifest item. Ruby orders strings by their
 * bytes; on characters that is the order of their code points.
 */
module Sorting {

  /** `a` sorts strictly before `b`. */
  predicate Below(a: string, b: string)
    decreases |a|
  {
    b != [] && (a == [] || a[0] < b[0] || (a[0] == b[0] && Below(a[1..], b[1..])))
  }

  lemma {:induction false} BelowIrreflexive(a: string)
    ensures !Below(a, a)
    decreases |a|
  {
    if a != [] {
      BelowIrreflexive(a[1..]);
    }
  }

  lemma {:induction false} BelowTransitive(a: string, b: string, c: string)
    requires Below(a, b) && Below(b, c)
    ensures Below(a, c)
    decreases |a|
  {
    if a != [] && a[0] == b[0] && b[0] == c[0] {
      BelowTransitive(a[1..], b[1..], c[1..]);
    }
  }

  lemma {:induction false} BelowTotal(a: string, b: string)
    ensures a == b || Below(a, b) || Below(b, a)
    decreases |a|
  {
    if a != [] && b != [] && a[0] == b[0] {
      BelowTotal(a[1..], b[1..]);
      if a[1..] == b[1..] {
        assert a == [a[0]] + a[1..] && b == [b[0]] + b[1..];
      }
    }
  }

  predicate StrictlySorted(s: seq<string>) {
    forall i, j :: 0 <= i < j < |s| ==> Below(s[i], s[j])
  }

  lemma BelowAll(x: string, s: seq<string>)
    requires StrictlySorted(s) && s != [] && Below(x, s[0])
    ensures forall j :: 0 <= j < |s| ==> Below(x, s[j])
  {
    forall j | 1 <= j < |s| ensures Below(x, s[j]) {
      BelowTransitive(x, s[0], s[j]);
    }
  }

  /** Places `x` into a strictly sorted sequence, unless it is already there. */
  function Insert(x: string, s: seq<string>): (r: seq<string>)
    requires StrictlySorted(s)
    ensures StrictlySorted(r)
    ensures forall e :: e in r <==> e == x || e in s
    decreases |s|
  {
    if s == [] then [x]
    else if x == s[0] then s
    else if Below(x, s[0]) then
      BelowAll(x, s);
      [x] + s
    else
      BelowTotal(x, s[0]);
      var t := Insert(x, s[1..]);
      assert forall j :: 0 <= j < |t| ==> Below(s[0], t[j]) by {
        forall j | 0 <= j < |t| ensures Below(s[0], t[j]) {
          assert t[j] in t;
          if t[j] != x {
            var k :| 1 <= k < |s| && s[k] == t[j];
          }
        }
      }
      [s[0]] + t
  }

  /**
   * `xs.sort.uniq`: the strictly sorted sequence of the strings of `xs`.
   * With `SortedUnique` this pins the result down completely.
   */
  function SortUniq(xs: seq<string>): (r: seq<string>)
    ensures StrictlySorted(r)
    ensures forall e :: e in r <==> e in xs
    decreases |xs|
  {
    if xs == [] then []
    else
      var r := Insert(xs[|xs| - 1], SortUniq(xs[..|xs| - 1]));
      assert forall e :: e in xs <==> e == xs[|xs| - 1] || e in xs[..|xs| - 1] by {
        assert xs == xs[..|xs| - 1] + [xs[|xs| - 1]];
      }
      r
  }

  /** Two strictly sorted sequences with the same strings are equal. */
  lemma {:induction false} SortedUnique(a: seq<string>, b: seq<string>)
    requires StrictlySorted(a) && StrictlySorted(b)
    requires forall e :: e in a <==> e in b
    ensures a == b
    decreases |a|
  {
    if a != [] {
      assert a[0] in b;
      assert b != [];
      assert b[0] in a;
      var i :| 0 <= i < |a| && a[i] == b[0];
      var j :| 0 <= j < |b| && b[j] == a[0];
      if i > 0 && j > 0 {
        // a[0] < a[i] == b[0] < b[j] == a[0]
        BelowTransitive(a[0], b[0], a[0]);
        BelowIrreflexive(a[0]);
      }
      assert a[0] == b[0] by {
        if i == 0 {
        } else {
          assert j == 0;
        }
      }
      forall e ensures e in a[1..] <==> e in b[1..] {
        if e in a[1..] {
          var k :| 1 <= k < |a| && a[k] == e;
          if e == a[0] { BelowIrreflexive(a[0]); }
          assert e in b;
        }
        if e in b[1..] {
          var k :| 1 <= k < |b| && b[k] == e;
          if e == b[0] { BelowIrreflexive(b[0]); }
          assert e in a;
        }
      }
      SortedUnique(a[1..], b[1..]);
      assert a == [a[0]] + a[1..] && b == [b[0]] + b[1..];
    } else if b != [] {
      HeadIsMember(b);
      assert false;
    }
  }

  lemma HeadIsMember(s: seq<string>)
    requires s != []
    ensures s[0] in s
  {
  }
}
