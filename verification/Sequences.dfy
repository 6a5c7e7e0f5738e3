/** Facts about sequences that the solver finds cheaply only when they stand alone. */
module Sequences {
  lemma SplitHead<T>(s: seq<T>, t: seq<T>)
    requires s != []
    ensures [s[0]] + (s[1..] + t) == s + t
  {
  }

  lemma Associative<T>(a: seq<T>, b: seq<T>, c: seq<T>)
    ensures (a + b) + c == a + (b + c)
  {
  }

  /** The order of strings by code points, which is also that of their UTF-8 bytes. */
  predicate Below(a: string, b: string) {
    b != "" && (a == "" || a[0] < b[0] || (a[0] == b[0] && Below(a[1..], b[1..])))
  }

  lemma {:induction false} BelowIsTotal(a: string, b: string)
    ensures Below(a, b) ==> a != b && !Below(b, a)
    ensures a != b ==> Below(a, b) || Below(b, a)
  {
    if a != "" && b != "" && a[0] == b[0] {
      BelowIsTotal(a[1..], b[1..]);
      assert a == [a[0]] + a[1..] && b == [b[0]] + b[1..];
    }
  }

  lemma {:induction false} BelowIsTransitive(a: string, b: string, c: string)
    requires Below(a, b) && Below(b, c)
    ensures Below(a, c)
  {
    if a != "" && a[0] == b[0] == c[0] {
      BelowIsTransitive(a[1..], b[1..], c[1..]);
    }
  }

  ghost predicate IsLeast(keys: set<string>, least: string) {
    least in keys && forall k | k in keys && k != least :: Below(least, k)
  }

  lemma {:induction false} LeastExists(keys: set<string>) returns (least: string)
    requires keys != {}
    ensures IsLeast(keys, least)
    decreases |keys|
  {
    var k :| k in keys;
    var rest := keys - {k};
    least := k;
    if rest != {} {
      var other := LeastExists(rest);
      BelowIsTotal(k, other);
      if Below(other, k) {
        least := other;
      } else {
        forall m | m in rest && m != other ensures Below(k, m) {
          BelowIsTransitive(k, other, m);
        }
      }
    }
  }
}
