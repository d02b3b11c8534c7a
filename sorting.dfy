/**
 * `OrderBy(v => v.Name)` over the listed variables. The comparer the editor
 * uses is the culture-sensitive default string comparer; here it is an
 * arbitrary total relation `leq` on names, so nothing below depends on
 * ordinal comparison. The sort is a stable insertion sort.
 */
module Sorting {
  import opened Gateway

  /** Any two names are comparable. */
  ghost predicate Total(leq: (string, string) -> bool) {
    forall a, b :: leq(a, b) || leq(b, a)
  }

  /** Every binding is ordered before its successor. */
  predicate SortedByName(bs: seq<Binding>, leq: (string, string) -> bool) {
    forall i :: 0 <= i < |bs| - 1 ==> leq(bs[i].name, bs[i + 1].name)
  }

  lemma NamesCons(b: Binding, s: seq<Binding>)
    ensures Names([b] + s) == {b.name} + Names(s)
    ensures DistinctNames([b] + s) <==> b.name !in Names(s) && DistinctNames(s)
  {
    assert ([b] + s)[1..] == s;
  }

  /** Places `b` before the first binding it is ordered before. */
  function Insert(b: Binding, s: seq<Binding>, leq: (string, string) -> bool): (r: seq<Binding>)
    requires Total(leq)
    ensures |r| == |s| + 1
    ensures multiset(r) == multiset(s) + multiset{b}
    ensures r[0] == b || (|s| > 0 && r[0] == s[0])
    ensures SortedByName(s, leq) ==> SortedByName(r, leq)
  {
    if s == [] || leq(b.name, s[0].name) then [b] + s
    else
      var rest := Insert(b, s[1..], leq);
      assert s == [s[0]] + s[1..];
      assert leq(s[0].name, b.name);
      [s[0]] + rest
  }

  /** `OrderBy` on names: sorted, and a permutation of its input. */
  function SortByName(bs: seq<Binding>, leq: (string, string) -> bool): (r: seq<Binding>)
    requires Total(leq)
    ensures SortedByName(r, leq)
    ensures multiset(r) == multiset(bs)
  {
    if bs == [] then []
    else
      assert bs == [bs[0]] + bs[1..];
      Insert(bs[0], SortByName(bs[1..], leq), leq)
  }

  lemma {:induction false} InsertKeepsNames(b: Binding, s: seq<Binding>, leq: (string, string) -> bool)
    requires Total(leq)
    requires DistinctNames(s) && b.name !in Names(s)
    ensures Names(Insert(b, s, leq)) == Names(s) + {b.name}
    ensures DistinctNames(Insert(b, s, leq))
  {
    NamesCons(b, s);
    if !(s == [] || leq(b.name, s[0].name)) {
      assert s == [s[0]] + s[1..];
      NamesCons(s[0], s[1..]);
      InsertKeepsNames(b, s[1..], leq);
      NamesCons(s[0], Insert(b, s[1..], leq));
    }
  }

  lemma {:induction false} InsertKeepsMap(b: Binding, s: seq<Binding>, leq: (string, string) -> bool)
    requires Total(leq)
    requires DistinctNames(s) && b.name !in Names(s)
    ensures ToMap(Insert(b, s, leq)) == ToMap(s)[b.name := b.value]
  {
    if s == [] || leq(b.name, s[0].name) {
      assert ([b] + s)[1..] == s;
      assert b.name !in ToMap(s);
    } else {
      assert s == [s[0]] + s[1..];
      NamesCons(s[0], s[1..]);
      InsertKeepsMap(b, s[1..], leq);
      var rest := Insert(b, s[1..], leq);
      assert ([s[0]] + rest)[1..] == rest;
      UpdateCommutes(ToMap(s[1..]), s[0].name, s[0].value, b.name, b.value);
    }
  }

  lemma UpdateCommutes(m: map<string, string>, k1: string, v1: string, k2: string, v2: string)
    requires k1 != k2
    ensures map[k1 := v1] + m[k2 := v2] == (map[k1 := v1] + m)[k2 := v2]
  {
  }

  /** With distinct names, sorting keeps the name-to-value map and the distinctness. */
  lemma {:induction false} SortKeepsBindings(bs: seq<Binding>, leq: (string, string) -> bool)
    requires Total(leq)
    requires DistinctNames(bs)
    ensures DistinctNames(SortByName(bs, leq))
    ensures Names(SortByName(bs, leq)) == Names(bs)
    ensures ToMap(SortByName(bs, leq)) == ToMap(bs)
  {
    if bs != [] {
      assert bs == [bs[0]] + bs[1..];
      NamesCons(bs[0], bs[1..]);
      SortKeepsBindings(bs[1..], leq);
      var tail := SortByName(bs[1..], leq);
      assert SortByName(bs, leq) == Insert(bs[0], tail, leq);
      InsertKeepsNames(bs[0], tail, leq);
      InsertKeepsMap(bs[0], tail, leq);
      assert bs[0].name !in ToMap(tail);
      FreshKeyUnion(ToMap(tail), bs[0].name, bs[0].value);
    }
  }

  lemma FreshKeyUnion(m: map<string, string>, k: string, v: string)
    requires k !in m
    ensures map[k := v] + m == m[k := v]
  {
  }
}
