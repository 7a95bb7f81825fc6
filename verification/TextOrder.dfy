/** Lexicographic order of Rust strings, and key order of a `BTreeMap`. */
module TextOrder {

  predicate Less(a: string, b: string) {
    b != "" && (a == "" || a[0] < b[0] || (a[0] == b[0] && Less(a[1..], b[1..])))
  }

  lemma {:induction false} LessTransitive(a: string, b: string, c: string)
    requires Less(a, b) && Less(b, c)
    ensures Less(a, c)
  {
    if a != "" && a[0] == b[0] == c[0] {
      LessTransitive(a[1..], b[1..], c[1..]);
    }
  }

  lemma {:induction false} LessTotal(a: string, b: string)
    ensures Less(a, b) || a == b || Less(b, a)
    ensures !(Less(a, b) && Less(b, a)) && !Less(a, a)
  {
    if a != "" && b != "" {
      LessTotal(a[1..], b[1..]);
      LessTotal(a[1..], a[1..]);
      assert a == [a[0]] + a[1..] && b == [b[0]] + b[1..];
    } else if a != "" {
      LessTotal(a[1..], a[1..]);
    }
  }

  predicate IsLeast(x: string, s: set<string>) {
    x in s && forall y :: y in s && y != x ==> Less(x, y)
  }

  lemma {:induction false} LeastExists(s: set<string>)
    requires s != {}
    ensures exists x :: IsLeast(x, s)
  {
    var a :| a in s;
    if s == {a} {
      assert IsLeast(a, s);
    } else {
      LeastExists(s - {a});
      var x :| IsLeast(x, s - {a});
      LessTotal(a, x);
      if Less(a, x) {
        forall y | y in s && y != a ensures Less(a, y) {
          if y != x {
            LessTransitive(a, x, y);
          }
        }
        assert IsLeast(a, s);
      } else {
        assert IsLeast(x, s);
      }
    }
  }

  lemma LeastUnique(s: set<string>)
    ensures forall x, y :: IsLeast(x, s) && IsLeast(y, s) ==> x == y
  {
    forall x, y | IsLeast(x, s) && IsLeast(y, s) ensures x == y {
      LessTotal(x, y);
    }
  }

  function Least(s: set<string>): (x: string)
    requires s != {}
    ensures IsLeast(x, s)
  {
    LeastExists(s);
    LeastUnique(s);
    var x :| IsLeast(x, s);
    x
  }

  /** The keys of a `BTreeMap`, in iteration order. */
  function InOrder(keys: set<string>): seq<string> {
    if keys == {} then [] else [Least(keys)] + InOrder(keys - {Least(keys)})
  }

  /** Iteration visits every key once, each after all smaller ones. */
  lemma {:induction false} InOrderVisitsAll(keys: set<string>)
    ensures |InOrder(keys)| == |keys|
    ensures forall x :: x in InOrder(keys) <==> x in keys
    ensures forall i, j :: 0 <= i < j < |InOrder(keys)| ==> Less(InOrder(keys)[i], InOrder(keys)[j])
    ensures forall i, j :: 0 <= i < j < |InOrder(keys)| ==> InOrder(keys)[i] != InOrder(keys)[j]
  {
    if keys != {} {
      var x := Least(keys);
      var rest := InOrder(keys - {x});
      InOrderVisitsAll(keys - {x});
      assert InOrder(keys) == [x] + rest;
      forall y | y in rest ensures Less(x, y) && x != y {
        LessTotal(x, y);
      }
    }
  }
}
