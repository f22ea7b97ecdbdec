/** The order of texts, and collections listed in it. */
module TextOrder {

  /** Strictly before, in the order of a `BTreeSet` or `BTreeMap` of texts. */
  predicate Before(a: string, b: string) {
    if a == [] then b != []
    else b != [] && (a[0] < b[0] || (a[0] == b[0] && Before(a[1..], b[1..])))
  }

  lemma {:induction false} BeforeIsTransitive(a: string, b: string, c: string)
    requires !Before(b, a) && !Before(c, b)
    ensures !Before(c, a)
  {
    if a != [] && b != [] && c != [] && a[0] == b[0] == c[0] {
      BeforeIsTransitive(a[1..], b[1..], c[1..]);
    }
  }

  lemma {:induction false} BeforeIsTotal(a: string, b: string)
    ensures Before(a, b) ==> !Before(b, a)
    ensures Before(a, b) || Before(b, a) || a == b
  {
    if a != [] && b != [] && a[0] == b[0] {
      BeforeIsTotal(a[1..], b[1..]);
      assert a == [a[0]] + a[1..] && b == [b[0]] + b[1..];
    }
  }

  lemma {:induction false} PrefixIsBefore(a: string, b: string)
    requires a < b
    ensures Before(a, b)
  {
    if a != [] {
      PrefixIsBefore(a[1..], b[1..]);
    }
  }

  /** The order that a comparison for sorting has to be. */
  ghost predicate WeakOrder<T(!new)>(before: (T, T) -> bool) {
    && (forall a, b :: before(a, b) ==> !before(b, a))
    && (forall a, b, c :: !before(b, a) && !before(c, b) ==> !before(c, a))
  }

  lemma BeforeIsWeakOrder()
    ensures WeakOrder(Before)
  {
    forall a, b
      ensures Before(a, b) ==> !Before(b, a)
    {
      BeforeIsTotal(a, b);
    }
    forall a, b, c | !Before(b, a) && !Before(c, b)
      ensures !Before(c, a)
    {
      BeforeIsTransitive(a, b, c);
    }
  }

  ghost predicate InOrderBy<T(!new)>(q: seq<T>, before: (T, T) -> bool) {
    forall i, j :: 0 <= i < j < |q| ==> q[i] != q[j] && !before(q[j], q[i])
  }

  /** The elements of a set in the given order. */
  method OrderedBy<T(!new)>(s: set<T>, before: (T, T) -> bool) returns (q: seq<T>)
    requires WeakOrder(before)
    ensures forall p :: p in q <==> p in s
    ensures InOrderBy(q, before)
  {
    q := [];
    var rest := s;
    while rest != {}
      invariant rest <= s
      invariant forall p :: p in q <==> p in s && p !in rest
      invariant InOrderBy(q, before)
      invariant forall i, p :: 0 <= i < |q| && p in rest ==> !before(p, q[i])
      decreases rest
    {
      var least := Least(rest, before);
      rest := rest - {least};
      q := q + [least];
    }
  }

  method Least<T(!new)>(s: set<T>, before: (T, T) -> bool) returns (least: T)
    requires s != {}
    requires WeakOrder(before)
    ensures least in s
    ensures forall p :: p in s ==> !before(p, least)
  {
    least :| least in s;
    var rest := s - {least};
    while rest != {}
      invariant rest <= s && least in s
      invariant forall p :: p in s && p !in rest ==> !before(p, least)
      decreases rest
    {
      var p :| p in rest;
      if before(p, least) {
        least := p;
      }
      rest := rest - {p};
    }
  }
}
