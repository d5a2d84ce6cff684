/**
 * Python's ordering of strings (code point by code point, a proper prefix first), which
 * `list.sort()` uses to find the most recent snapshot, and the greatest name of a set.
 */
module LexOrder {

  predicate Less(a: string, b: string)
    decreases |a|
  {
    |b| > 0 && (|a| == 0 || a[0] < b[0] || (a[0] == b[0] && Less(a[1..], b[1..])))
  }

  predicate LessEq(a: string, b: string) {
    a == b || Less(a, b)
  }

  lemma {:induction false} Irreflexive(a: string)
    ensures !Less(a, a)
    decreases |a|
  {
    if |a| > 0 {
      Irreflexive(a[1..]);
    }
  }

  lemma {:induction false} Trichotomy(a: string, b: string)
    ensures Less(a, b) || a == b || Less(b, a)
    decreases |a|
  {
    if |a| > 0 && |b| > 0 && a[0] == b[0] {
      Trichotomy(a[1..], b[1..]);
      if a[1..] == b[1..] {
        assert a == [a[0]] + a[1..] && b == [b[0]] + b[1..];
      }
    }
  }

  lemma {:induction false} Transitive(a: string, b: string, c: string)
    requires Less(a, b) && Less(b, c)
    ensures Less(a, c)
    decreases |a|
  {
    if |a| > 0 && a[0] == b[0] && b[0] == c[0] {
      Transitive(a[1..], b[1..], c[1..]);
    }
  }

  lemma Asymmetric(a: string, b: string)
    requires Less(a, b)
    ensures !Less(b, a)
  {
    if Less(b, a) {
      Transitive(a, b, a);
      Irreflexive(a);
    }
  }

  /** m is the name `sorted(s)[-1]` picks. */
  predicate IsGreatest(m: string, s: set<string>) {
    m in s && forall n :: n in s ==> LessEq(n, m)
  }

  lemma {:induction false} GreatestExists(s: set<string>)
    requires s != {}
    ensures exists m :: IsGreatest(m, s)
  {
    var x :| x in s;
    if s == {x} {
      assert IsGreatest(x, s);
    } else {
      GreatestExists(s - {x});
      var m :| IsGreatest(m, s - {x});
      Trichotomy(x, m);
      if Less(m, x) {
        forall n | n in s
          ensures LessEq(n, x)
        {
          if n != x && n != m {
            assert n in s - {x};
            Transitive(n, m, x);
          }
        }
        assert IsGreatest(x, s);
      } else {
        assert IsGreatest(m, s);
      }
    }
  }

  lemma GreatestUnique(m1: string, m2: string, s: set<string>)
    requires IsGreatest(m1, s) && IsGreatest(m2, s)
    ensures m1 == m2
  {
    if m1 != m2 {
      Asymmetric(m1, m2);
    }
  }

  ghost function Greatest(s: set<string>): (m: string)
    requires s != {}
    ensures IsGreatest(m, s)
  {
    GreatestExists(s);
    var m :| IsGreatest(m, s);
    m
  }

  /** Whatever name is greatest in s is the one `Greatest` picks. */
  lemma GreatestIsTheOne(s: set<string>)
    requires s != {}
    ensures forall m :: IsGreatest(m, s) ==> m == Greatest(s)
  {
    forall m | IsGreatest(m, s)
      ensures m == Greatest(s)
    {
      GreatestUnique(m, Greatest(s), s);
    }
  }

  /** Adding a name that sorts after every other makes it the greatest. */
  lemma GreatestOfInsert(s: set<string>, x: string)
    requires forall n :: n in s ==> LessEq(n, x)
    ensures Greatest(s + {x}) == x
  {
    assert IsGreatest(x, s + {x});
    GreatestUnique(x, Greatest(s + {x}), s + {x});
  }

  /** Extending two strings of equal length keeps their order. */
  lemma {:induction false} AppendKeepsLess(x: string, y: string, u: string, v: string)
    requires |x| == |y| && Less(x, y)
    ensures Less(x + u, y + v)
    decreases |x|
  {
    if x[0] == y[0] {
      assert (x + u)[1..] == x[1..] + u && (y + v)[1..] == y[1..] + v;
      AppendKeepsLess(x[1..], y[1..], u, v);
    }
  }

  /** A common prefix does not change the order. */
  lemma {:induction false} PrefixKeepsLess(p: string, u: string, v: string)
    requires Less(u, v)
    ensures Less(p + u, p + v)
    decreases |p|
  {
    if p == [] {
      assert p + u == u && p + v == v;
    } else {
      assert (p + u)[1..] == p[1..] + u && (p + v)[1..] == p[1..] + v;
      PrefixKeepsLess(p[1..], u, v);
    }
  }
}
