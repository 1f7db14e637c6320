/**
 * `itertools.product`: the cartesian product of a list of choice lists, as a
 * list of tuples in which the first position varies slowest.
 */
module Combinatorics {

  /** Every tuple of `ps` with `t` put in front. */
  function Prefix<T>(t: T, ps: seq<seq<T>>): (r: seq<seq<T>>)
    ensures |r| == |ps|
    ensures forall j :: 0 <= j < |ps| ==> r[j] == [t] + ps[j]
  {
    seq(|ps|, j requires 0 <= j < |ps| => [t] + ps[j])
  }

  /** `product(c, ps)` for an already built product `ps` of the later positions. */
  function Extend<T>(c: seq<T>, ps: seq<seq<T>>): (r: seq<seq<T>>)
    ensures |r| == |c| * |ps|
  {
    if c == [] then [] else Prefix(c[0], ps) + Extend(c[1..], ps)
  }

  /** `list(product(*choices))`. */
  function Product<T>(choices: seq<seq<T>>): (r: seq<seq<T>>)
    ensures |r| == ProductSize(choices)
  {
    if |choices| == 0 then [[]] else Extend(choices[0], Product(choices[1..]))
  }

  /** The product of the sizes of the choice lists. */
  function ProductSize<T>(choices: seq<seq<T>>): nat
  {
    if |choices| == 0 then 1 else |choices[0]| * ProductSize(choices[1..])
  }

  /** `e` picks, at every position, one of the choices for that position. */
  predicate Picks<T(==)>(e: seq<T>, choices: seq<seq<T>>)
  {
    |e| == |choices| && forall i :: 0 <= i < |e| ==> e[i] in choices[i]
  }

  /** `[c] * n`, the choice lists of `product(c, repeat=n)`. */
  function Repeat<T>(c: seq<T>, n: nat): (r: seq<seq<T>>)
    ensures |r| == n && forall i :: 0 <= i < n ==> r[i] == c
  {
    seq(n, _ => c)
  }

  function Pow(b: nat, n: nat): nat
  {
    if n == 0 then 1 else b * Pow(b, n - 1)
  }

  lemma {:induction false} ExtendMember<T>(c: seq<T>, ps: seq<seq<T>>, e: seq<T>)
    ensures e in Extend(c, ps) <==> |e| > 0 && e[0] in c && e[1..] in ps
  {
    if c != [] {
      ExtendMember(c[1..], ps, e);
      assert Extend(c, ps) == Prefix(c[0], ps) + Extend(c[1..], ps);
      if e in Prefix(c[0], ps) {
        var j :| 0 <= j < |ps| && Prefix(c[0], ps)[j] == e;
        assert e[1..] == ps[j];
      }
      if |e| > 0 && e[0] == c[0] && e[1..] in ps {
        var j :| 0 <= j < |ps| && ps[j] == e[1..];
        assert Prefix(c[0], ps)[j] == e;
      }
    }
  }

  /** A tuple is produced exactly when it picks one allowed choice per position. */
  lemma {:induction false} ProductMember<T>(choices: seq<seq<T>>, e: seq<T>)
    ensures e in Product(choices) <==> Picks(e, choices)
  {
    if |choices| == 0 {
      assert Product(choices) == [[]];
    } else {
      ExtendMember(choices[0], Product(choices[1..]), e);
      if |e| > 0 {
        ProductMember(choices[1..], e[1..]);
        if Picks(e[1..], choices[1..]) && e[0] in choices[0] {
          forall i | 0 <= i < |e| ensures e[i] in choices[i] {
            if i > 0 { assert e[1..][i - 1] == e[i]; }
          }
        }
        if Picks(e, choices) {
          forall i | 0 <= i < |e| - 1 ensures e[1..][i] in choices[1..][i] {
            assert e[1..][i] == e[i + 1];
          }
        }
      }
    }
  }

  lemma {:induction false} RepeatSize<T>(c: seq<T>, n: nat)
    ensures ProductSize(Repeat(c, n)) == Pow(|c|, n)
  {
    if n > 0 {
      assert Repeat(c, n)[1..] == Repeat(c, n - 1);
      RepeatSize(c, n - 1);
    }
  }

  /** `product(c, repeat=n)` has |c|^n tuples, exactly the length-n tuples over `c`. */
  lemma RepeatProduct<T>(c: seq<T>, n: nat)
    ensures |Product(Repeat(c, n))| == Pow(|c|, n)
    ensures forall e :: e in Product(Repeat(c, n)) <==> |e| == n && forall i :: 0 <= i < n ==> e[i] in c
  {
    RepeatSize(c, n);
    forall e ensures e in Product(Repeat(c, n)) <==> |e| == n && forall i :: 0 <= i < n ==> e[i] in c {
      ProductMember(Repeat(c, n), e);
    }
  }

  predicate Distinct<T(==)>(s: seq<T>)
  {
    forall i, j :: 0 <= i < j < |s| ==> s[i] != s[j]
  }

  lemma DistinctConcat<T>(a: seq<T>, b: seq<T>)
    requires Distinct(a) && Distinct(b)
    requires forall x :: x in a ==> x !in b
    ensures Distinct(a + b)
  {
    forall i, j | 0 <= i < j < |a + b| ensures (a + b)[i] != (a + b)[j] {
      if i < |a| && j >= |a| {
        assert (a + b)[i] in a && (a + b)[j] in b;
      }
    }
  }

  lemma {:induction false} ExtendDistinct<T>(c: seq<T>, ps: seq<seq<T>>)
    requires Distinct(c) && Distinct(ps)
    ensures Distinct(Extend(c, ps))
  {
    if c != [] {
      var head, rest := Prefix(c[0], ps), Extend(c[1..], ps);
      ExtendDistinct(c[1..], ps);
      forall i, j | 0 <= i < j < |head| ensures head[i] != head[j] {
        assert head[i][1..] == ps[i] && head[j][1..] == ps[j];
      }
      forall x | x in head ensures x !in rest {
        ExtendMember(c[1..], ps, x);
        assert x[0] == c[0];
        assert c[0] !in c[1..];
      }
      DistinctConcat(head, rest);
    }
  }

  /** When no choice list repeats an entry, no tuple is produced twice. */
  lemma {:induction false} ProductDistinct<T>(choices: seq<seq<T>>)
    requires forall i :: 0 <= i < |choices| ==> Distinct(choices[i])
    ensures Distinct(Product(choices))
  {
    if |choices| > 0 {
      ProductDistinct(choices[1..]);
      ExtendDistinct(choices[0], Product(choices[1..]));
    }
  }
}
