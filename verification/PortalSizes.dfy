/** When the counting pass of the renderer asks for the right size. */
module PortalSizes {
  import opened PortalSpec
  import opened Widths

  // ----- a search that starts earlier finds at least as much

  lemma {:induction false} FoundMonotone(s: string, key: string, p: nat, q: nat)
    requires key != "" && p <= q <= |s|
    ensures Found(s, key, q) <= Found(s, key, p)
    decreases |s| - p, 1
  {
    hide At;
    if p < q {
      if At(s, p, key) {
        AtFits(s, p, key);
        if q <= p + |key| {
          FoundOneMore(s, key, q, p + |key|);
        } else {
          FoundMonotone(s, key, p + |key|, q);
        }
      } else {
        FoundMonotone(s, key, p + 1, q);
      }
    }
  }

  /** Starting at most one key's length earlier finds at most one more. */
  lemma {:induction false} FoundOneMore(s: string, key: string, p: nat, q: nat)
    requires key != "" && p <= q <= |s| && q <= p + |key|
    ensures Found(s, key, p) <= 1 + Found(s, key, q)
    decreases |s| - p, 0
  {
    hide At;
    if p < q {
      if At(s, p, key) {
        AtFits(s, p, key);
        FoundMonotone(s, key, q, p + |key|);
      } else {
        FoundOneMore(s, key, p + 1, q);
      }
    }
  }

  /** For every template and every key: what is substituted was counted. */
  lemma {:induction false} ChosenAtMostFound(s: string, subs: seq<Sub>, i: nat, p: nat)
    requires Keyed(subs) && i < |subs| && p <= |s|
    ensures Chosen(s, subs, i, p) <= Found(s, subs[i].key, p)
    decreases |s| - p
  {
    hide At;
    var j := KeyAt(s, p, subs);
    if p < |s| {
      if j < |subs| {
        AtFits(s, p, subs[j].key);
        var q := p + |subs[j].key|;
        ChosenAtMostFound(s, subs, i, q);
        FoundMonotone(s, subs[i].key, p, q);
      } else {
        ChosenAtMostFound(s, subs, i, p + 1);
        FoundMonotone(s, subs[i].key, p, p + 1);
      }
    }
  }

  // ----- template and keys apart from the values

  predicate NonEmpty(keys: seq<string>) { forall i :: 0 <= i < |keys| ==> keys[i] != "" }

  function With(keys: seq<string>, vals: seq<string>): (subs: seq<Sub>)
    requires |keys| == |vals|
    ensures |subs| == |keys|
    ensures forall i :: 0 <= i < |keys| ==> subs[i] == Sub(keys[i], vals[i])
  {
    seq(|keys|, i requires 0 <= i < |keys| => Sub(keys[i], vals[i]))
  }

  /** The keys with themselves as values: any values would do. */
  function Plain(keys: seq<string>): (subs: seq<Sub>)
    ensures |subs| == |keys| && forall i :: 0 <= i < |keys| ==> subs[i].key == keys[i]
  {
    With(keys, keys)
  }

  /** Every key is substituted as often as it is counted: a condition on the template and the keys. */
  predicate CountsAgree(s: string, keys: seq<string>)
    requires NonEmpty(keys)
  {
    FoundAll(s, Plain(keys)) == ChosenAll(s, Plain(keys), 0)
  }

  predicate SameKeys(a: seq<Sub>, b: seq<Sub>) { |a| == |b| && forall i :: 0 <= i < |a| ==> a[i].key == b[i].key }

  lemma SameKeyAt(s: string, p: nat, a: seq<Sub>, b: seq<Sub>)
    requires SameKeys(a, b)
    ensures KeyAt(s, p, a) == KeyAt(s, p, b)
  {
    hide At;
    var i, j := KeyAt(s, p, a), KeyAt(s, p, b);
    if i < |a| { assert At(s, p, b[i].key); }
    if j < |a| { assert At(s, p, a[j].key); }
  }

  lemma {:induction false} SameChosen(s: string, a: seq<Sub>, b: seq<Sub>, i: nat, p: nat)
    requires Keyed(a) && Keyed(b) && SameKeys(a, b) && i < |a| && p <= |s|
    ensures Chosen(s, a, i, p) == Chosen(s, b, i, p)
    decreases |s| - p
  {
    hide At;
    SameKeyAt(s, p, a, b);
    var j := KeyAt(s, p, a);
    if p < |s| {
      if j < |a| {
        AtFits(s, p, a[j].key);
        SameChosen(s, a, b, i, p + |a[j].key|);
      } else {
        SameChosen(s, a, b, i, p + 1);
      }
    }
  }

  /** The counts do not depend on the values. */
  lemma SameCounts(s: string, a: seq<Sub>, b: seq<Sub>)
    requires Keyed(a) && Keyed(b) && SameKeys(a, b)
    ensures FoundAll(s, a) == FoundAll(s, b) && ChosenAll(s, a, 0) == ChosenAll(s, b, 0)
  {
    hide Found, Chosen;
    forall i | 0 <= i < |a| ensures Chosen(s, a, i, 0) == Chosen(s, b, i, 0) {
      SameChosen(s, a, b, i, 0);
    }
  }

  // ----- when the size is right

  /** The buffer that is asked for has room for the text and its zero. */
  predicate Suffices(s: string, subs: seq<Sub>)
    requires Keyed(subs)
  {
    |Subst(s, subs, 0)| + 1 <= OutSize(s, subs)
  }

  /** It has room for nothing else. */
  predicate Exact(s: string, subs: seq<Sub>)
    requires Keyed(subs)
  {
    |Subst(s, subs, 0)| + 1 == OutSize(s, subs)
  }

  /** The text and its zero can be counted in a size_t. */
  predicate Countable(s: string, subs: seq<Sub>)
    requires Keyed(subs)
  {
    |Subst(s, subs, 0)| + 1 < TWO32
  }

  lemma AgreeingExact(s: string, keys: seq<string>, vals: seq<string>)
    requires NonEmpty(keys) && |keys| == |vals| && CountsAgree(s, keys) && Countable(s, With(keys, vals))
    ensures Exact(s, With(keys, vals))
  {
    hide Weighted, Found, Chosen, Subst;
    SameCounts(s, Plain(keys), With(keys, vals));
    SizeAndText(s, With(keys, vals));
  }

  /** One value a character shorter than its key, all others as long as theirs. */
  function Shorter(keys: seq<string>, i: nat): (vals: seq<string>)
    requires NonEmpty(keys) && i < |keys|
    ensures |vals| == |keys|
  {
    keys[i := keys[i][1..]]
  }

  lemma {:induction false} WeightedShorter(counts: seq<nat>, subs: seq<Sub>, i: nat)
    requires |counts| == |subs| && i < |subs|
    requires forall j :: 0 <= j < |subs| ==> subs[j].Growth() == if j == i then -1 else 0
    ensures Weighted(counts, subs) + counts[i] == 0
  {
    hide Times;
    var n := |subs| - 1;
    TimesSmall(counts[n]);
    if i < n {
      WeightedShorter(counts[..n], subs[..n], i);
    } else {
      WeightedNone(counts[..n], subs[..n]);
    }
  }

  lemma {:induction false} WeightedNone(counts: seq<nat>, subs: seq<Sub>)
    requires |counts| == |subs| && forall j :: 0 <= j < |subs| ==> subs[j].Growth() == 0
    ensures Weighted(counts, subs) == 0
  {
    hide Times;
    if counts != [] {
      var n := |subs| - 1;
      TimesSmall(counts[n]);
      WeightedNone(counts[..n], subs[..n]);
    }
  }

  lemma TimesSmall(n: nat)
    ensures Times(n, 0) == 0 && Times(n, -1) == 0 - n
  {
  }

  lemma {:induction false} FoundAtMost(s: string, key: string, p: nat)
    requires key != "" && p <= |s|
    ensures Found(s, key, p) <= |s| - p
    decreases |s| - p
  {
    hide At;
    if p < |s| {
      if At(s, p, key) {
        AtFits(s, p, key);
        FoundAtMost(s, key, p + |key|);
      } else {
        FoundAtMost(s, key, p + 1);
      }
    }
  }

  /** Where a key is counted oftener than it is substituted, a value one character short makes the buffer too small. */
  lemma ShorterFails(s: string, keys: seq<string>, i: nat)
    requires NonEmpty(keys) && i < |keys| && |s| + 1 < TWO32
    requires Found(s, keys[i], 0) != Chosen(s, Plain(keys), i, 0)
    ensures var subs := With(keys, Shorter(keys, i)); Countable(s, subs) && !Suffices(s, subs)
  {
    hide Weighted, Found, Chosen, Subst;
    var subs := With(keys, Shorter(keys, i));
    SameCounts(s, Plain(keys), subs);
    ChosenAtMostFound(s, subs, i, 0);
    FoundAtMost(s, keys[i], 0);
    WeightedShorter(FoundAll(s, subs), subs, i);
    WeightedShorter(ChosenAll(s, subs, 0), subs, i);
    assert ChosenAll(s, Plain(keys), 0)[i] == ChosenAll(s, subs, 0)[i];
    SubstLength(s, subs, 0);
  }

  lemma Disagreement(s: string, keys: seq<string>) returns (i: nat)
    requires NonEmpty(keys) && !CountsAgree(s, keys)
    ensures i < |keys| && Found(s, keys[i], 0) != Chosen(s, Plain(keys), i, 0)
  {
    hide Found, Chosen;
    var a, b := FoundAll(s, Plain(keys)), ChosenAll(s, Plain(keys), 0);
    i :| 0 <= i < |keys| && a[i] != b[i];
  }

  /** The size is exact for every choice of values exactly when every key is substituted as often as it is counted. */
  lemma ExactIff(s: string, keys: seq<string>)
    requires NonEmpty(keys) && |s| + 1 < TWO32
    ensures (forall vals: seq<string> :: |vals| == |keys| && Countable(s, With(keys, vals)) ==> Exact(s, With(keys, vals)))
            <==> CountsAgree(s, keys)
  {
    hide Exact, Suffices, CountsAgree, Countable, Subst, OutSize;
    if CountsAgree(s, keys) {
      forall vals: seq<string> | |vals| == |keys| && Countable(s, With(keys, vals)) ensures Exact(s, With(keys, vals)) {
        AgreeingExact(s, keys, vals);
      }
    } else {
      var i := Disagreement(s, keys);
      ShorterFails(s, keys, i);
      if Exact(s, With(keys, Shorter(keys, i))) { ExactSuffices(s, With(keys, Shorter(keys, i))); }
    }
  }

  lemma ExactSuffices(s: string, subs: seq<Sub>)
    requires Keyed(subs) && Exact(s, subs)
    ensures Suffices(s, subs)
  {
  }

  /** And so the buffer suffices for every choice of values exactly then. */
  lemma SufficesIff(s: string, keys: seq<string>)
    requires NonEmpty(keys) && |s| + 1 < TWO32
    ensures (forall vals: seq<string> :: |vals| == |keys| && Countable(s, With(keys, vals)) ==> Suffices(s, With(keys, vals)))
            <==> CountsAgree(s, keys)
  {
    hide Suffices, CountsAgree, Countable, Subst, OutSize;
    if CountsAgree(s, keys) {
      forall vals: seq<string> | |vals| == |keys| && Countable(s, With(keys, vals)) ensures Suffices(s, With(keys, vals)) {
        AgreeingExact(s, keys, vals);
        ExactSuffices(s, With(keys, vals));
      }
    } else {
      var i := Disagreement(s, keys);
      ShorterFails(s, keys, i);
    }
  }

  // ----- values that are not shorter

  lemma {:induction false} WeightedMonotone(a: seq<nat>, b: seq<nat>, subs: seq<Sub>)
    requires |a| == |b| == |subs|
    requires forall i :: 0 <= i < |subs| ==> a[i] <= b[i] && subs[i].Growth() >= 0
    ensures Weighted(a, subs) <= Weighted(b, subs)
  {
    hide Times;
    if a != [] {
      var n := |a| - 1;
      WeightedMonotone(a[..n], b[..n], subs[..n]);
      TimesMonotone(a[n], b[n], subs[n].Growth());
    }
  }

  lemma TimesMonotone(a: nat, b: nat, d: nat)
    requires a <= b
    ensures Times(a, d) <= Times(b, d)
  {
    assert Times(b, d) - Times(a, d) == (b - a) * d;
  }

  /** Where no value is shorter than its key the buffer suffices, unless its size has wrapped around. */
  lemma LongValuesSuffice(s: string, subs: seq<Sub>)
    requires Keyed(subs) && forall i :: 0 <= i < |subs| ==> subs[i].Growth() >= 0
    requires |s| + Weighted(FoundAll(s, subs), subs) + 1 < TWO32
    ensures Suffices(s, subs)
  {
    hide Weighted, Found, Chosen, Subst;
    forall i | 0 <= i < |subs| ensures Chosen(s, subs, i, 0) <= Found(s, subs[i].key, 0) {
      ChosenAtMostFound(s, subs, i, 0);
    }
    WeightedMonotone(ChosenAll(s, subs, 0), FoundAll(s, subs), subs);
    SubstLength(s, subs, 0);
  }

  /** Keys that overlap in the template, with empty values: no byte is asked for, two are written. */
  lemma OverlapTooSmall()
    ensures var subs := [Sub("ab", ""), Sub("bc", "")];
            Keyed(subs) && OutSize("abc", subs) == 0 && |Subst("abc", subs, 0)| + 1 == 2
  {
    OverlapMiscounts("", "");
    SubstLength("abc", [Sub("ab", ""), Sub("bc", "")], 0);
  }

  /** Keys that never overlap each other are substituted as often as they are counted. */
  lemma DisjointAgree(s: string, keys: seq<string>)
    requires NonEmpty(keys) && Disjoint(s, Plain(keys))
    ensures CountsAgree(s, keys)
  {
    hide Disjoint, Found, Chosen;
    var subs := Plain(keys);
    forall i | 0 <= i < |subs| ensures Found(s, subs[i].key, 0) == Chosen(s, subs, i, 0) {
      FoundIsChosen(s, subs, i, 0);
    }
  }
}
