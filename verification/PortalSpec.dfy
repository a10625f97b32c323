/** Filling in the portal's page template: the text it should become, and how long that is. */
module PortalSpec {
  import opened Widths

  /** size_t has 32 bits. */
  function Wrap(n: int): (r: nat)
    ensures r < TWO32
  {
    n % TWO32
  }

  /** Strings up to, and without, their terminating zero. */
  datatype Sub = Sub(key: string, val: string) {
    /** The change of length that one substitution makes. */
    function Growth(): int { |val| - |key| }
  }

  /** Where a scan can make progress. */
  predicate Keyed(subs: seq<Sub>) { forall i :: 0 <= i < |subs| ==> subs[i].key != "" }

  predicate At(s: string, p: nat, key: string) { p + |key| <= |s| && s[p..p + |key|] == key }

  /** strstr: the first occurrence at p or later, or the length. */
  function Search(s: string, p: nat, key: string): (q: nat)
    requires key != "" && p <= |s|
    ensures p <= q <= |s| && (q < |s| ==> At(s, q, key)) && forall r :: p <= r < q ==> !At(s, r, key)
    decreases |s| - p
  {
    if p == |s| || At(s, p, key) then p else Search(s, p + 1, key)
  }

  /** The first key that stands at p, or the number of keys. */
  function KeyAt(s: string, p: nat, subs: seq<Sub>): (i: nat)
    ensures i <= |subs| && (i < |subs| ==> At(s, p, subs[i].key))
    ensures forall j :: 0 <= j < i ==> !At(s, p, subs[j].key)
  {
    if subs == [] then 0 else if At(s, p, subs[0].key) then 0 else 1 + KeyAt(s, p, subs[1..])
  }

  /** Simultaneous substitution from the left: a key gives way to its value, any other character stays. */
  function Subst(s: string, subs: seq<Sub>, p: nat): string
    requires Keyed(subs) && p <= |s|
    decreases |s| - p
  {
    var i := KeyAt(s, p, subs);
    if p == |s| then ""
    else if i < |subs| then subs[i].val + Subst(s, subs, p + |subs[i].key|)
    else [s[p]] + Subst(s, subs, p + 1)
  }

  /** How often key i is substituted from p on. */
  function Chosen(s: string, subs: seq<Sub>, i: nat, p: nat): nat
    requires Keyed(subs) && p <= |s| && i < |subs|
    decreases |s| - p
  {
    var j := KeyAt(s, p, subs);
    if p == |s| then 0
    else if j < |subs| then (if i == j then 1 else 0) + Chosen(s, subs, i, p + |subs[j].key|)
    else Chosen(s, subs, i, p + 1)
  }

  /** How often a key is found from p on, when each search begins after the last find. */
  function Found(s: string, key: string, p: nat): nat
    requires key != "" && p <= |s|
    decreases |s| - p
  {
    if p == |s| then 0
    else if At(s, p, key) then 1 + Found(s, key, p + |key|)
    else Found(s, key, p + 1)
  }

  function Times(n: nat, d: int): int { n * d }

  /** The total growth for given counts of the keys. */
  function Weighted(counts: seq<nat>, subs: seq<Sub>): int
    requires |counts| == |subs|
  {
    if counts == [] then 0
    else
      var n := |counts| - 1;
      Weighted(counts[..n], subs[..n]) + Times(counts[n], subs[n].Growth())
  }

  function ChosenAll(s: string, subs: seq<Sub>, p: nat): (r: seq<nat>)
    requires Keyed(subs) && p <= |s|
    ensures |r| == |subs|
  {
    seq(|subs|, i requires 0 <= i < |subs| => Chosen(s, subs, i, p))
  }

  function FoundAll(s: string, subs: seq<Sub>): (r: seq<nat>)
    requires Keyed(subs)
    ensures |r| == |subs|
  {
    seq(|subs|, i requires 0 <= i < |subs| => Found(s, subs[i].key, 0))
  }

  /** The size that the counting pass asks for, in the target's wrapping arithmetic. */
  function OutSize(s: string, subs: seq<Sub>): nat
    requires Keyed(subs)
  {
    Wrap(|s| + Weighted(FoundAll(s, subs), subs) + 1)
  }

  predicate Apart(p: nat, key: string, q: nat, other: string) { p + |key| <= q || q + |other| <= p }

  /** No two occurrences of different keys overlap in the template. */
  ghost predicate Disjoint(s: string, subs: seq<Sub>) {
    forall i, j, p: nat, q: nat ::
      0 <= i < |subs| && 0 <= j < |subs| && i != j && At(s, p, subs[i].key) && At(s, q, subs[j].key) ==>
        Apart(p, subs[i].key, q, subs[j].key)
  }

  // ----- lengths

  lemma {:induction false} WeightedBump(a: seq<nat>, b: seq<nat>, subs: seq<Sub>, j: nat)
    requires |a| == |b| == |subs| && j < |subs|
    requires forall i :: 0 <= i < |a| ==> a[i] == b[i] + if i == j then 1 else 0
    ensures Weighted(a, subs) == Weighted(b, subs) + subs[j].Growth()
  {
    hide Times;
    var n := |a| - 1;
    if j == n {
      assert a[..n] == b[..n];
      TimesMore(b[n], subs[n].Growth());
    } else {
      WeightedBump(a[..n], b[..n], subs[..n], j);
    }
  }

  lemma TimesMore(n: nat, d: int)
    ensures Times(n + 1, d) == Times(n, d) + d && Times(0, d) == 0
  {
  }

  lemma {:induction false} WeightedZero(counts: seq<nat>, subs: seq<Sub>)
    requires |counts| == |subs| && forall i :: 0 <= i < |counts| ==> counts[i] == 0
    ensures Weighted(counts, subs) == 0
  {
    if counts != [] { WeightedZero(counts[..|counts| - 1], subs[..|counts| - 1]); }
  }

  /** The text grows by the growth of the keys that are substituted. */
  lemma {:induction false} SubstLength(s: string, subs: seq<Sub>, p: nat)
    requires Keyed(subs) && p <= |s|
    ensures |Subst(s, subs, p)| == |s| - p + Weighted(ChosenAll(s, subs, p), subs)
    decreases |s| - p
  {
    hide Weighted, At;
    var j := KeyAt(s, p, subs);
    if p == |s| {
      WeightedZero(ChosenAll(s, subs, p), subs);
    } else if j < |subs| {
      assert At(s, p, subs[j].key);
      AtFits(s, p, subs[j].key);
      var q := p + |subs[j].key|;
      SubstLength(s, subs, q);
      WeightedBump(ChosenAll(s, subs, p), ChosenAll(s, subs, q), subs, j);
    } else {
      SubstLength(s, subs, p + 1);
      assert ChosenAll(s, subs, p) == ChosenAll(s, subs, p + 1);
    }
  }

  lemma AtFits(s: string, p: nat, key: string)
    requires At(s, p, key)
    ensures p + |key| <= |s|
  {
  }

  /** For every template: the size asked for exceeds the text and its zero by the growth of the finds that are
      not substituted. */
  lemma SizeAndText(s: string, subs: seq<Sub>)
    requires Keyed(subs)
    ensures OutSize(s, subs) ==
            Wrap(|Subst(s, subs, 0)| + 1 + Weighted(FoundAll(s, subs), subs) - Weighted(ChosenAll(s, subs, 0), subs))
  {
    SubstLength(s, subs, 0);
  }

  /** A stretch without the key adds nothing to its count. */
  lemma {:induction false} FoundSkip(s: string, key: string, p: nat, q: nat)
    requires key != "" && p <= q <= |s| && forall r :: p <= r < q ==> !At(s, r, key)
    ensures Found(s, key, p) == Found(s, key, q)
    decreases q - p
  {
    hide At;
    if p < q { FoundSkip(s, key, p + 1, q); }
  }

  lemma SubstCopies(s: string, subs: seq<Sub>, p: nat)
    requires Keyed(subs) && p < |s| && forall i :: 0 <= i < |subs| ==> !At(s, p, subs[i].key)
    ensures Subst(s, subs, p) == [s[p]] + Subst(s, subs, p + 1)
  {
    hide At;
  }

  /** A stretch without any key is copied. */
  lemma {:induction false} SubstSkip(s: string, subs: seq<Sub>, p: nat, q: nat)
    requires Keyed(subs) && p <= q <= |s|
    requires forall r, i :: p <= r < q && 0 <= i < |subs| ==> !At(s, r, subs[i].key)
    ensures Subst(s, subs, p) == s[p..q] + Subst(s, subs, q)
    decreases q - p
  {
    hide At, Subst;
    if p < q {
      SubstSkip(s, subs, p + 1, q);
      SubstCopies(s, subs, p);
      assert s[p..q] == [s[p]] + s[p + 1..q];
    } else {
      assert s[p..q] == "";
    }
  }

  /** No other key begins within an occurrence. */
  lemma NoneUnder(s: string, subs: seq<Sub>, i: nat, j: nat, p: nat)
    requires Keyed(subs) && Disjoint(s, subs) && i < |subs| && j < |subs| && i != j && At(s, p, subs[j].key)
    ensures forall r: nat :: p <= r < p + |subs[j].key| ==> !At(s, r, subs[i].key)
  {
    hide At;
    assert forall r: nat :: p <= r < p + |subs[j].key| ==> !Apart(p, subs[j].key, r, subs[i].key);
  }

  /** Where different keys do not overlap, every find is substituted. */
  lemma {:induction false} FoundIsChosen(s: string, subs: seq<Sub>, i: nat, p: nat)
    requires Keyed(subs) && Disjoint(s, subs) && i < |subs| && p <= |s|
    ensures Found(s, subs[i].key, p) == Chosen(s, subs, i, p)
    decreases |s| - p
  {
    hide At, Disjoint;
    var j := KeyAt(s, p, subs);
    if p < |s| {
      if j == |subs| {
        FoundIsChosen(s, subs, i, p + 1);
      } else {
        AtFits(s, p, subs[j].key);
        var q := p + |subs[j].key|;
        FoundIsChosen(s, subs, i, q);
        if i != j {
          NoneUnder(s, subs, i, j, p);
          FoundSkip(s, subs[i].key, p, q);
        }
      }
    }
  }

  /** Where different keys do not overlap, the counting pass predicts the text's size exactly. */
  lemma SizeExact(s: string, subs: seq<Sub>)
    requires Keyed(subs) && Disjoint(s, subs) && |Subst(s, subs, 0)| + 1 < TWO32
    ensures OutSize(s, subs) == |Subst(s, subs, 0)| + 1
  {
    hide Weighted, Disjoint, Subst, Found, Chosen;
    SizeAndText(s, subs);
    forall i | 0 <= i < |subs| ensures Found(s, subs[i].key, 0) == Chosen(s, subs, i, 0) {
      FoundIsChosen(s, subs, i, 0);
    }
    assert FoundAll(s, subs) == ChosenAll(s, subs, 0);
  }

  /** One key alone never overlaps a different one. */
  lemma OneKey(s: string, key: string, val: string)
    requires key != "" && |Subst(s, [Sub(key, val)], 0)| + 1 < TWO32
    ensures OutSize(s, [Sub(key, val)]) == |Subst(s, [Sub(key, val)], 0)| + 1
  {
    SizeExact(s, [Sub(key, val)]);
  }

  /** Where occurrences of different keys overlap, the size can be wrong either way: both are counted, one is substituted. */
  lemma OverlapMiscounts(v: string, w: string)
    ensures var subs := [Sub("ab", v), Sub("bc", w)];
            Keyed(subs) && OutSize("abc", subs) == Wrap(|Subst("abc", subs, 0)| + 1 + |w| - 2)
  {
    var s, subs := "abc", [Sub("ab", v), Sub("bc", w)];
    assert s[0..2] == "ab" && s[1..3] == "bc";
    assert At(s, 0, "ab") && At(s, 1, "bc") && !At(s, 0, "bc") && !At(s, 1, "ab") && !At(s, 2, "ab") && !At(s, 2, "bc");
    hide At;
    assert KeyAt(s, 0, subs) == 0 && KeyAt(s, 2, subs) == 2;
    assert Found(s, "ab", 0) == 1 && Found(s, "bc", 0) == 1 by {
      assert Found(s, "ab", 2) == Found(s, "ab", 3) == 0;
      assert Found(s, "bc", 1) == 1;
    }
    assert Subst(s, subs, 2) == "c" && Subst(s, subs, 0) == v + "c";
    assert FoundAll(s, subs) == [1, 1];
    TimesMore(0, |v| - 2);
    TimesMore(0, |w| - 2);
    assert FoundAll(s, subs)[..1] == [1] && subs[..1] == [Sub("ab", v)];
    assert Weighted([1], [Sub("ab", v)]) == |v| - 2;
  }
}
