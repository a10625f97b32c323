/** The two passes over the portal's template: one adds up the size, the other fills the buffer. */
module Portal {
  import opened PortalSpec
  import opened PortalSizes
  import opened Widths

  /** The text, its terminating zero, and nothing more. */
  predicate Holds(buffer: seq<char>, text: string) { |buffer| == |text| + 1 && buffer == text + ['\0'] }

  /** strstr */
  method StrStr(s: string, from: nat, key: string) returns (p: nat)
    requires key != "" && from <= |s|
    ensures p == Search(s, from, key)
  {
    p := from;
    while p < |s|
      invariant from <= p <= |s|
      invariant forall r :: from <= r < p ==> !At(s, r, key)
    {
      if p + |key| <= |s| && s[p..p + |key|] == key {
        assert At(s, p, key);
        return;
      }
      p := p + 1;
    }
  }

  /** memcpy */
  method Copy(out: array<char>, at: nat, s: string)
    requires at + |s| <= out.Length
    modifies out
    ensures out[..at] == old(out[..at]) && out[at..at + |s|] == s
  {
    for i := 0 to |s|
      invariant out[..at] == old(out[..at])
      invariant out[at..at + i] == s[..i]
    {
      out[at + i] := s[i];
      assert out[at..at + i + 1] == out[at..at + i] + [s[i]];
      assert s[..i + 1] == s[..i] + [s[i]];
    }
  }

  /** The finds of one key, each search beginning after the last find; the growth wraps around. */
  method CountKey(s: string, key: string, val: string, extra: nat) returns (sum: nat)
    requires key != "" && extra < TWO32
    ensures sum == Wrap(extra + Times(Found(s, key, 0), |val| - |key|))
  {
    hide At, Times, Wrap;
    var growth := |val| - |key|;
    ghost var n := 0;
    sum := extra;
    WrapSmall(extra);
    TimesMore(0, growth);
    var p := StrStr(s, 0, key);
    FoundSkip(s, key, 0, p);
    while p < |s|
      invariant p <= |s| && (p < |s| ==> At(s, p, key))
      invariant n + Found(s, key, p) == Found(s, key, 0)
      invariant sum == Wrap(extra + Times(n, growth))
    {
      TimesMore(n, growth);
      AddWraps(extra + Times(n, growth), growth);
      sum := Wrap(sum + growth);
      n := n + 1;
      AtFits(s, p, key);
      var next := StrStr(s, p + |key|, key);
      FoundSkip(s, key, p + |key|, next);
      p := next;
    }
  }

  lemma AddWraps(a: int, b: int)
    ensures Wrap(Wrap(a) + b) == Wrap(a + b)
  {
    ModShift(a % TWO32 + b, a / TWO32);
  }

  lemma WrapSmall(n: nat)
    requires n < TWO32
    ensures Wrap(n) == n
  {
  }

  lemma {:induction false} ModShift(a: int, q: int)
    ensures (a + q * TWO32) % TWO32 == a % TWO32
    decreases if q < 0 then -q else q
  {
    if q > 0 {
      ModShift(a, q - 1);
      ModOnce(a + (q - 1) * TWO32);
    } else if q < 0 {
      ModShift(a, q + 1);
      ModOnce(a + q * TWO32);
    }
  }

  lemma ModOnce(a: int)
    ensures (a + TWO32) % TWO32 == a % TWO32
  {
  }

  /** The counting pass. */
  method Measure(s: string, subs: seq<Sub>) returns (size: nat)
    requires Keyed(subs)
    ensures size == OutSize(s, subs)
  {
    hide Found, Times, Wrap;
    WrapSmall(0);
    var extra := 0;
    ghost var counts := FoundAll(s, subs);
    for i := 0 to |subs|
      invariant extra == Wrap(Weighted(counts[..i], subs[..i]))
    {
      assert counts[..i + 1][..i] == counts[..i] && subs[..i + 1][..i] == subs[..i];
      var sum := CountKey(s, subs[i].key, subs[i].val, extra);
      AddWraps(Weighted(counts[..i], subs[..i]), Times(counts[i], subs[i].Growth()));
      extra := sum;
    }
    assert counts[..|subs|] == counts && subs[..|subs|] == subs;
    AddWraps(Weighted(counts, subs), |s| + 1);
    size := Wrap(|s| + extra + 1);
  }

  /** The earliest occurrence of any key from src on; the first key wins a tie. */
  method Earliest(s: string, src: nat, subs: seq<Sub>) returns (p: nat, ei: nat)
    requires Keyed(subs) && src < |s|
    ensures src <= p <= |s|
    ensures forall r, i :: src <= r < p && 0 <= i < |subs| ==> !At(s, r, subs[i].key)
    ensures p < |s| ==> ei < |subs| && ei == KeyAt(s, p, subs)
  {
    hide At;
    p, ei := |s|, |subs|;
    for i := 0 to |subs|
      invariant src <= p <= |s|
      invariant forall r, j :: src <= r < p && 0 <= j < i ==> !At(s, r, subs[j].key)
      invariant p < |s| ==> ei < i && At(s, p, subs[ei].key) && forall j :: 0 <= j < ei ==> !At(s, p, subs[j].key)
    {
      var found := StrStr(s, src, subs[i].key);
      if found < p { p, ei := found, i; }
    }
  }

  /** The writing pass, into any buffer that has room. */
  method Write(s: string, subs: seq<Sub>, out: array<char>) returns (end: nat)
    requires Keyed(subs) && |Subst(s, subs, 0)| < out.Length
    modifies out
    ensures end == |Subst(s, subs, 0)| && Holds(out[..end + 1], Subst(s, subs, 0))
  {
    hide At, KeyAt, Subst;
    ghost var text := Subst(s, subs, 0);
    var src := 0;
    end := 0;
    SubstEnd(s, subs);
    while src < |s|
      invariant src <= |s| && end <= out.Length
      invariant out[..end] + Subst(s, subs, src) == text
    {
      var p, ei := Earliest(s, src, subs);
      SubstSkip(s, subs, src, p);
      if p < |s| {
        SubstKey(s, subs, p, ei);
        WriteBoth(out, end, s[src..p], subs[ei].val, text, Subst(s, subs, p + |subs[ei].key|));
        end := end + (p - src) + |subs[ei].val|;
        src := p + |subs[ei].key|;
      } else {
        WriteBoth(out, end, s[src..], "", text, "");
        end := end + (|s| - src);
        src := |s|;
      }
    }
    assert out[..end] == text;
    out[end] := '\0';
    assert out[..end + 1] == out[..end] + ['\0'];
  }

  lemma SubstEnd(s: string, subs: seq<Sub>)
    requires Keyed(subs)
    ensures Subst(s, subs, |s|) == ""
  {
  }

  lemma SubstKey(s: string, subs: seq<Sub>, p: nat, i: nat)
    requires Keyed(subs) && p < |s| && i < |subs| && i == KeyAt(s, p, subs)
    ensures p + |subs[i].key| <= |s|
    ensures Subst(s, subs, p) == subs[i].val + Subst(s, subs, p + |subs[i].key|)
  {
  }

  /** A stretch of the template and a value, one behind the other. */
  method WriteBoth(out: array<char>, end: nat, a: string, b: string, ghost text: string, ghost rest: string)
    requires end <= out.Length && out[..end] + (a + (b + rest)) == text && |text| < out.Length
    modifies out
    ensures out[..end + |a| + |b|] + rest == text && end + |a| + |b| <= out.Length
  {
    ghost var was := out[..end];
    assert |text| == end + |a| + |b| + |rest|;
    Copy(out, end, a);
    assert out[..end + |a|] == was + a;
    Copy(out, end + |a|, b);
    assert out[..end + |a| + |b|] == was + a + b;
  }

  /** tollgate_core_portal_render, wherever the buffer that it allocates has room for what it writes. */
  method Render(s: string, subs: seq<Sub>) returns (html: array<char>)
    requires Keyed(subs) && Suffices(s, subs)
    ensures fresh(html) && html.Length == OutSize(s, subs)
    ensures |Subst(s, subs, 0)| < html.Length && Holds(html[..|Subst(s, subs, 0)| + 1], Subst(s, subs, 0))
    ensures Exact(s, subs) ==> Holds(html[..], Subst(s, subs, 0))
  {
    hide OutSize, Subst;
    var size := Measure(s, subs);
    html := new char[size](_ => '\0');
    var end := Write(s, subs, html);
    assert html.Length == end + 1 ==> html[..end + 1] == html[..];
  }

  /** tollgate_core_portal_template_replace */
  method TemplateReplace(s: string, key: string, val: string) returns (out: array<char>)
    requires key != "" && |Subst(s, [Sub(key, val)], 0)| + 1 < TWO32
    ensures fresh(out) && Holds(out[..], Subst(s, [Sub(key, val)], 0))
  {
    hide OutSize, Subst, Wrap;
    var extra := CountKey(s, key, val, 0);
    var size := Wrap(|s| + extra + 1);
    OneKeySize(s, key, val, extra);
    OneKey(s, key, val);
    out := new char[size](_ => '\0');
    var end := Fill(s, key, val, out);
    assert out[..end + 1] == out[..];
  }

  /** The writing loop for one key. */
  method Fill(s: string, key: string, val: string, out: array<char>) returns (end: nat)
    requires key != "" && |Subst(s, [Sub(key, val)], 0)| < out.Length
    modifies out
    ensures end == |Subst(s, [Sub(key, val)], 0)| && Holds(out[..end + 1], Subst(s, [Sub(key, val)], 0))
  {
    hide At, KeyAt, Subst;
    ghost var subs := [Sub(key, val)];
    ghost var text := Subst(s, subs, 0);
    var src := 0;
    end := 0;
    SubstEnd(s, subs);
    while src < |s|
      invariant src <= |s| && end <= out.Length
      invariant out[..end] + Subst(s, subs, src) == text
    {
      var p := StrStr(s, src, key);
      NoKeyBefore(s, subs, src, p);
      if p < |s| {
        OnlyKey(s, subs, p);
        SubstKey(s, subs, p, 0);
        WriteBoth(out, end, s[src..p], val, text, Subst(s, subs, p + |key|));
        end := end + (p - src) + |val|;
        src := p + |key|;
      } else {
        WriteBoth(out, end, s[src..], "", text, "");
        end := end + (|s| - src);
        src := |s|;
      }
    }
    assert out[..end] == text;
    out[end] := '\0';
    assert out[..end + 1] == out[..end] + ['\0'];
  }

  lemma NoKeyBefore(s: string, subs: seq<Sub>, src: nat, p: nat)
    requires |subs| == 1 && subs[0].key != "" && src <= |s| && p == Search(s, src, subs[0].key)
    ensures Subst(s, subs, src) == s[src..p] + Subst(s, subs, p)
  {
    hide At, Subst;
    SubstSkip(s, subs, src, p);
  }

  lemma OnlyKey(s: string, subs: seq<Sub>, p: nat)
    requires |subs| == 1 && At(s, p, subs[0].key)
    ensures KeyAt(s, p, subs) == 0
  {
  }

  lemma OneKeySize(s: string, key: string, val: string, extra: nat)
    requires key != "" && extra == Wrap(Times(Found(s, key, 0), |val| - |key|))
    ensures Wrap(|s| + extra + 1) == OutSize(s, [Sub(key, val)])
  {
    hide Found, Times, Weighted, Wrap;
    var growth := Times(Found(s, key, 0), |val| - |key|);
    WeightedOne(FoundAll(s, [Sub(key, val)]), [Sub(key, val)]);
    AddWraps(growth, |s| + 1);
    assert |s| + growth + 1 == growth + (|s| + 1);
    assert |s| + extra + 1 == extra + (|s| + 1);
  }

  lemma WeightedOne(counts: seq<nat>, subs: seq<Sub>)
    requires |counts| == |subs| == 1
    ensures Weighted(counts, subs) == Times(counts[0], subs[0].Growth())
  {
    assert Weighted(counts[..0], subs[..0]) == 0;
  }
}
