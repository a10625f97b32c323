/** What the tokens of a payment are worth in time. */
module Allotments {
  import opened Arith
  import opened AccessSpec
  import opened Widths

  function Quotient(n: nat, d: nat): nat
    requires d > 0
  {
    n / d
  }

  function Rest(n: nat, d: nat): nat
    requires d > 0
  {
    n % d
  }

  function Product(a: nat, b: nat): nat { a * b }

  /** tollgate_core_cashu_calculate_allotment */
  function Allotment(amount: U64, price: U64, step: U64): U64 {
    if price == 0 then 0 else Product(Quotient(amount, price), step) % TWO64
  }

  /** The value of several payments. */
  function Total(amounts: seq<U64>): nat {
    if amounts == [] then 0 else Total(amounts[..|amounts| - 1]) + amounts[|amounts| - 1]
  }

  /** What they buy when each is credited on its own. */
  function Credit(amounts: seq<U64>, price: U64, step: U64): nat {
    if amounts == [] then 0
    else Credit(amounts[..|amounts| - 1], price, step) + Allotment(amounts[|amounts| - 1], price, step)
  }

  /** What each of them leaves over, together. */
  function Change(amounts: seq<U64>, price: U64): nat
    requires price > 0
  {
    if amounts == [] then 0
    else Change(amounts[..|amounts| - 1], price) + Rest(amounts[|amounts| - 1], price)
  }

  function Steps(amounts: seq<U64>, price: U64): nat
    requires price > 0
  {
    if amounts == [] then 0
    else Steps(amounts[..|amounts| - 1], price) + Quotient(amounts[|amounts| - 1], price)
  }

  lemma ProductSum(a: nat, b: nat, c: nat)
    ensures Product(a + b, c) == Product(a, c) + Product(b, c)
  {
  }

  lemma ProductOne(c: nat)
    ensures Product(0, c) == 0 && Product(1, c) == c
  {
  }

  lemma Division(n: nat, d: nat)
    requires d > 0
    ensures n == Product(Quotient(n, d), d) + Rest(n, d) && Rest(n, d) <= d - 1
  {
    DivModBounds(n, d, 0);
  }

  lemma DivisionUnique(q: nat, r: nat, d: nat)
    requires r < d
    ensures Quotient(Product(q, d) + r, d) == q
  {
    DivModUnique(q * d + r, q, r, d);
  }

  lemma {:induction false} ValueIsStepsAndChange(amounts: seq<U64>, price: U64)
    requires price > 0
    ensures Total(amounts) == Product(Steps(amounts, price), price) + Change(amounts, price)
    ensures Change(amounts, price) <= Product(|amounts|, price - 1)
  {
    hide Product, Quotient, Rest;
    if amounts == [] {
      ProductOne(price);
      ProductOne(price - 1);
    } else {
      var init, last := amounts[..|amounts| - 1], amounts[|amounts| - 1];
      ValueIsStepsAndChange(init, price);
      Division(last, price);
      ProductSum(Steps(init, price), Quotient(last, price), price);
      ProductSum(|init|, 1, price - 1);
      ProductOne(price - 1);
    }
  }

  lemma {:induction false} CreditIsSteps(amounts: seq<U64>, price: U64, step: U64)
    requires price > 0 && Product(Steps(amounts, price), step) < TWO64
    ensures Credit(amounts, price, step) == Product(Steps(amounts, price), step)
  {
    hide Product, Quotient;
    if amounts == [] {
      ProductOne(step);
    } else {
      var init, last := amounts[..|amounts| - 1], amounts[|amounts| - 1];
      ProductSum(Steps(init, price), Quotient(last, price), step);
      assert 0 <= Product(Steps(init, price), step) && 0 <= Product(Quotient(last, price), step);
      CreditIsSteps(init, price, step);
      ModSmall(Product(Quotient(last, price), step));
    }
  }

  lemma ModSmall(n: nat)
    requires n < TWO64
    ensures n % TWO64 == n
  {
  }

  /** The change of k payments is worth at most k - 1 steps. */
  lemma ChangeSteps(amounts: seq<U64>, price: U64)
    requires price > 0 && amounts != []
    ensures Quotient(Change(amounts, price), price) <= |amounts| - 1
  {
    var n, c := |amounts|, Change(amounts, price);
    ValueIsStepsAndChange(amounts, price);
    ChangeBelow(n, price, c);
    DivModBounds(c, price, n);
  }

  lemma ChangeBelow(n: nat, price: nat, c: nat)
    requires n > 0 && price > 0 && c <= Product(n, price - 1)
    ensures c < n * price
  {
  }

  /** Paying in parts loses exactly the whole steps that the parts' change adds up to, less than one per part. */
  lemma PaymentInParts(amounts: seq<U64>, price: U64, step: U64)
    requires price > 0 && amounts != []
    requires Total(amounts) < TWO64 && Product(Quotient(Total(amounts), price), step) < TWO64
    ensures Allotment(Total(amounts), price, step)
         == Credit(amounts, price, step) + Product(Quotient(Change(amounts, price), price), step)
    ensures Quotient(Change(amounts, price), price) <= |amounts| - 1
  {
    hide Product, Quotient, Rest;
    var t, w, c := Total(amounts), Steps(amounts, price), Change(amounts, price);
    ValueIsStepsAndChange(amounts, price);
    Division(c, price);
    ProductSum(w, Quotient(c, price), price);
    DivisionUnique(w + Quotient(c, price), Rest(c, price), price);
    assert Quotient(t, price) == w + Quotient(c, price);
    ProductSum(w, Quotient(c, price), step);
    assert 0 <= Product(Quotient(c, price), step);
    CreditIsSteps(amounts, price, step);
    ModSmall(Product(Quotient(t, price), step));
    ChangeSteps(amounts, price);
  }
}
