/** The rule-of-product builder: one pick from every group, in a fixed enumeration order. */
module Combinatorics {
  import opened Results

  /** Every combination so far, extended by the variant `v`. */
  function AppendToEach<T>(ret: seq<seq<T>>, v: T): (r: seq<seq<T>>)
    ensures |r| == |ret|
    ensures forall i :: 0 <= i < |ret| ==> r[i] == ret[i] + [v]
  {
    seq(|ret|, i requires 0 <= i < |ret| => ret[i] + [v])
  }

  /** Adding one more group: a copy of all combinations so far for each variant, the variants in group order. */
  function Extend<T>(ret: seq<seq<T>>, g: seq<T>): (r: seq<seq<T>>)
    ensures |r| == |g| * |ret|
    decreases |g|
  {
    if g == [] then []
    else
      var rest := Extend(ret, g[1..]);
      assert |rest| == (|g| - 1) * |ret|;
      AppendToEach(ret, g[0]) + rest
  }

  /** The product of the group sizes. */
  function ProductSize<T>(gs: seq<seq<T>>): nat
  {
    if gs == [] then 1 else ProductSize(gs[..|gs| - 1]) * |gs[|gs| - 1]|
  }

  /** All combinations of `gs`, in the order `build` produces them. */
  function Product<T>(gs: seq<seq<T>>): (r: seq<seq<T>>)
    ensures |r| == ProductSize(gs)
  {
    if gs == [] then [[]] else Extend(Product(gs[..|gs| - 1]), gs[|gs| - 1])
  }

  /** What a group list looks like once `vs` were added to its current (last) group. */
  function WithVariants<T>(gs: seq<seq<T>>, vs: seq<T>): seq<seq<T>>
  {
    if vs == [] then gs
    else if gs == [] then [vs]
    else gs[..|gs| - 1] + [gs[|gs| - 1] + vs]
  }

  /** With every group non-empty, at least one combination exists. */
  lemma {:induction false} ProductSizePositive<T>(gs: seq<seq<T>>)
    requires forall i :: 0 <= i < |gs| ==> gs[i] != []
    ensures ProductSize(gs) >= 1
    decreases |gs|
  {
    if gs != [] {
      ProductSizePositive(gs[..|gs| - 1]);
    }
  }

  /** When every group before the last is non-empty, the combinations run out exactly when the last group is
      empty. */
  lemma LastGroupDecides<T>(gs: seq<seq<T>>)
    ensures gs != [] && (forall i :: 0 <= i < |gs| - 1 ==> gs[i] != []) ==>
              (ProductSize(gs) == 0 <==> gs[|gs| - 1] == [])
  {
    if gs != [] && (forall i :: 0 <= i < |gs| - 1 ==> gs[i] != []) {
      var init := gs[..|gs| - 1];
      assert forall i :: 0 <= i < |init| ==> init[i] == gs[i];
      ProductSizePositive(init);
    }
  }

  class RuleOfProductComboBuilder<T> {
    /** The groups in insertion order; the current group of the source is always the last one. */
    var groups: seq<seq<T>>

    /** Every group except the current one has received a variant. */
    ghost predicate Valid()
      reads this
    {
      forall i :: 0 <= i < |groups| - 1 ==> groups[i] != []
    }

    constructor ()
      ensures Valid() && groups == []
    {
      groups := [];
    }

    /** `isGroupEmpty`: there is no current group, or it has no variant yet; in a valid builder, that is there
        are no groups at all or no combination to build. */
    predicate IsGroupEmpty()
      reads this
      ensures Valid() ==> (IsGroupEmpty() <==> groups == [] || ProductSize(groups) == 0)
    {
      LastGroupDecides(groups);
      if |groups| == 0 then true else groups[|groups| - 1] == []
    }

    /** `isEmpty`: true without groups, false with more than one, otherwise whether the only group is empty. */
    function IsEmpty(): (b: bool)
      reads this
      requires Valid()
      ensures b <==> forall i :: 0 <= i < |groups| ==> groups[i] == []
    {
      if |groups| == 0 then true
      else if |groups| > 1 then
        assert groups[0] != [];
        false
      else groups[0] == []
    }

    /** `checkGroupNotEmpty`: the exception thrown when the current group is missing or empty. */
    function CheckGroupNotEmpty(): (o: Outcome)
      reads this
      ensures o.Fail? <==> IsGroupEmpty()
      ensures o.Fail? ==> o.error == IllegalState
    {
      if |groups| == 0 || groups[|groups| - 1] == [] then Fail(IllegalState) else Pass
    }

    /** `newGroup`: refuses while the current group is empty, otherwise opens a fresh empty group. */
    method NewGroup() returns (o: Outcome)
      requires Valid()
      modifies this
      ensures Valid()
      ensures o.Fail? <==> |old(groups)| > 0 && old(groups)[|old(groups)| - 1] == []
      ensures o.Fail? ==> o.error == IllegalState && groups == old(groups)
      ensures o.Pass? ==> groups == old(groups) + [[]]
    {
      if |groups| > 0 {
        var check := CheckGroupNotEmpty();
        if check.Fail? {
          return check;
        }
      }
      groups := groups + [[]];
      o := Pass;
    }

    /** `variant`: adds `v` to the current group, opening the first group when there is none. */
    method Variant(v: T)
      requires Valid()
      modifies this
      ensures Valid()
      ensures groups == WithVariants(old(groups), [v])
    {
      if |groups| == 0 {
        var created := NewGroup();
        assert created.Pass? && groups == [[]];
      }
      var n := |groups|;
      var currentGroup := groups[n - 1];
      groups := groups[..n - 1] + [currentGroup + [v]];
      assert old(groups) == [] ==> currentGroup + [v] == [v];
    }

    /** `variants`: `variant` for each item in order; no items, no change. */
    method Variants(vs: seq<T>)
      requires Valid()
      modifies this
      ensures Valid()
      ensures groups == WithVariants(old(groups), vs)
    {
      for i := 0 to |vs|
        invariant Valid()
        invariant groups == WithVariants(old(groups), vs[..i])
      {
        assert vs[..i + 1] == vs[..i] + [vs[i]];
        WithVariantsSnoc(old(groups), vs[..i], vs[i]);
        Variant(vs[i]);
      }
      assert vs[..|vs|] == vs;
    }

    /** `computeProductSize`: the product of the group sizes, refused while the current group is empty. */
    method ComputeProductSize() returns (r: Result<int>)
      requires Valid()
      ensures r.Failure? <==> IsGroupEmpty()
      ensures r.Failure? ==> r.error == IllegalState
      ensures r.Success? ==> r.value == ProductSize(groups) == |Product(groups)|
      ensures r.Success? ==> r.value >= 1
    {
      var check := CheckGroupNotEmpty();
      if check.Fail? {
        return Failure(check.error);
      }
      var total := 1;
      for i := 0 to |groups|
        invariant total == ProductSize(groups[..i])
      {
        assert groups[..i + 1][..i] == groups[..i];
        total := total * |groups[i]|;
      }
      assert groups[..|groups|] == groups;
      r := Success(total);
    }

    /** `build`: every combination, the first group varying fastest, refused while the current group is empty. */
    method Build() returns (r: Result<seq<seq<T>>>)
      requires Valid()
      ensures r.Failure? <==> IsGroupEmpty()
      ensures r.Failure? ==> r.error == IllegalState
      ensures r.Success? ==> r.value == Product(groups)
      ensures r.Success? ==> r.value != []
    {
      var check := CheckGroupNotEmpty();
      if check.Fail? {
        return Failure(check.error);
      }
      var ret: seq<seq<T>> := [];
      for i := 0 to |groups|
        invariant i == 0 ==> ret == []
        invariant i > 0 ==> ret == Product(groups[..i])
      {
        var group := groups[i];
        assert groups[..i + 1][..i] == groups[..i];
        if i == 0 {
          ret := Seed(group);
        } else if |group| == 1 {
          ret := AppendInPlace(ret, group[0]);
          assert group[1..] == [];
        } else {
          ret := DuplicateForEach(ret, group);
        }
      }
      assert groups[..|groups|] == groups;
      r := Success(ret);
    }
  }

  /** The first round of `build`: one single-element combination per variant of the first group. */
  method Seed<T>(group: seq<T>) returns (ret: seq<seq<T>>)
    ensures ret == Extend([[]], group)
  {
    ret := [];
    for t := 0 to |group|
      invariant ret == Extend([[]], group[..t])
    {
      ExtendSnoc([[]], group[..t], group[t]);
      assert group[..t + 1] == group[..t] + [group[t]];
      var newList := [group[t]];
      assert AppendToEach([[]], group[t])[0] == [] + [group[t]] == newList;
      assert AppendToEach([[]], group[t]) == [newList];
      ret := ret + [newList];
    }
    assert group[..|group|] == group;
  }

  /** A later group with exactly one variant: that variant is added to every combination in place. */
  method AppendInPlace<T>(ret0: seq<seq<T>>, v: T) returns (ret: seq<seq<T>>)
    ensures ret == Extend(ret0, [v])
  {
    ret := ret0;
    for m := 0 to |ret|
      invariant |ret| == |ret0|
      invariant forall x :: 0 <= x < m ==> ret[x] == ret0[x] + [v]
      invariant forall x :: m <= x < |ret| ==> ret[x] == ret0[x]
    {
      ret := ret[m := ret[m] + [v]];
    }
    assert [v][1..] == [];
  }

  /** A later group with several variants: a copy of every combination for each variant, variant by variant. */
  method DuplicateForEach<T>(ret: seq<seq<T>>, group: seq<T>) returns (retTmp: seq<seq<T>>)
    ensures retTmp == Extend(ret, group)
  {
    retTmp := [];
    for t := 0 to |group|
      invariant retTmp == Extend(ret, group[..t])
    {
      ExtendSnoc(ret, group[..t], group[t]);
      assert group[..t + 1] == group[..t] + [group[t]];
      for m := 0 to |ret|
        invariant retTmp == Extend(ret, group[..t]) + AppendToEach(ret[..m], group[t])
      {
        assert ret[..m + 1] == ret[..m] + [ret[m]];
        var copy := ret[m] + [group[t]];
        retTmp := retTmp + [copy];
      }
      assert ret[..|ret|] == ret;
    }
    assert group[..|group|] == group;
  }

  /** Variants added right after `newGroup` make up the whole new group. */
  lemma WithVariantsNewGroup<T>(gs: seq<seq<T>>, vs: seq<T>)
    requires vs != []
    ensures WithVariants(gs + [[]], vs) == gs + [vs]
  {
    assert (gs + [[]])[..|gs|] == gs;
    assert [] + vs == vs;
  }

  /** Adding variants one at a time is adding them all at once. */
  lemma WithVariantsSnoc<T>(gs: seq<seq<T>>, vs: seq<T>, v: T)
    ensures WithVariants(WithVariants(gs, vs), [v]) == WithVariants(gs, vs + [v])
  {
    if vs == [] {
      assert vs + [v] == [v];
    } else if gs == [] {
      assert [vs][..0] + [vs + [v]] == [vs + [v]];
    } else {
      var n := |gs|;
      var once := WithVariants(gs, vs);
      assert once[..n - 1] == gs[..n - 1] && once[n - 1] == gs[n - 1] + vs;
      assert (gs[n - 1] + vs) + [v] == gs[n - 1] + (vs + [v]);
    }
  }

  /** Extending by one more variant adds one more copy of the combinations at the end. */
  lemma {:induction false} ExtendSnoc<T>(ret: seq<seq<T>>, g: seq<T>, v: T)
    ensures Extend(ret, g + [v]) == Extend(ret, g) + AppendToEach(ret, v)
    decreases |g|
  {
    if g == [] {
      assert ([] + [v])[1..] == [];
    } else {
      assert (g + [v])[0] == g[0];
      assert (g + [v])[1..] == g[1..] + [v];
      ExtendSnoc(ret, g[1..], v);
    }
  }
}

/** What `build` promises: sizes, shape and the exact mixed-radix enumeration order. */
module CombinatoricsLemmas {
  import opened Results
  import opened Combinatorics

  /** The divisor and remainder of `x` by `d` are the only pair that rebuilds it. */
  lemma DivModUnique(x: int, d: int, q: int, r: int)
    requires d > 0 && 0 <= r < d && x == q * d + r
    ensures x / d == q && x % d == r
  {
    var q0, r0 := x / d, x % d;
    assert x == q0 * d + r0;
    assert (q - q0) * d == r0 - r by {
      assert (q - q0) * d == q * d - q0 * d;
    }
    if q - q0 >= 1 {
      AtLeastOneMultiple(q - q0, d);
    } else if q0 - q >= 1 {
      AtLeastOneMultiple(q0 - q, d);
    }
  }

  /** A number below the divisor is its own remainder. */
  lemma SmallMod(x: int, d: int)
    requires 0 <= x < d
    ensures x % d == x
  {
    DivModUnique(x, d, 0, x);
  }

  /** A natural divided by a positive number gives a natural. */
  lemma DivNonNegative(x: int, d: int)
    requires 0 <= x && 0 < d
    ensures 0 <= x / d
  {
  }

  /** A positive product of naturals has positive factors. */
  lemma PositiveFactors(r: nat, b: nat, m: nat)
    requires r * (b * m) > 0
    ensures r > 0 && b > 0 && m > 0
  {
  }

  /** Taking one `n` off `k` lowers the quotient by one and keeps the remainder. */
  lemma DivStep(k: int, n: int, c: int)
    requires 0 < n <= k < c * n
    ensures k - n < (c - 1) * n
    ensures k / n == (k - n) / n + 1 && k % n == (k - n) % n
  {
    assert (c - 1) * n == c * n - n;
    var q := (k - n) / n;
    assert k - n == q * n + (k - n) % n;
    assert k == (q + 1) * n + (k - n) % n;
    DivModUnique(k, n, q + 1, (k - n) % n);
  }

  /** A positive multiple of `d` is at least `d`. */
  lemma {:induction false} AtLeastOneMultiple(t: int, d: int)
    requires t >= 1 && d > 0
    ensures t * d >= d
    decreases t
  {
    if t > 1 {
      AtLeastOneMultiple(t - 1, d);
      assert t * d == (t - 1) * d + d;
    }
  }

  /** Whole multiples of `d` pass through division and vanish under remainder. */
  lemma DivAddMultiple(x: int, d: int, y: int)
    requires d > 0
    ensures (x * d + y) / d == x + y / d
    ensures (x * d + y) % d == y % d
  {
    assert y == (y / d) * d + y % d;
    assert x * d + y == (x + y / d) * d + y % d;
    DivModUnique(x * d + y, d, x + y / d, y % d);
  }

  /** Reducing modulo a multiple of `r * b` first does not change digit `(k / r) % b`. */
  lemma DigitOfRemainder(k: int, r: int, b: int, m: int)
    requires k >= 0 && r > 0 && b > 0 && m > 0
    ensures r * (b * m) > 0
    ensures ((k % (r * (b * m))) / r) % b == (k / r) % b
  {
    var n := r * (b * m);
    assert n > 0 by {
      assert b * m > 0;
    }
    var q, rest := k / n, k % n;
    assert k == (q * b * m) * r + rest by {
      assert q * n == (q * b * m) * r;
    }
    DivAddMultiple(q * b * m, r, rest);
    assert k / r == (q * m) * b + rest / r;
    DivAddMultiple(q * m, b, rest / r);
  }

  /** The product size of a concatenation is the product of the two sizes. */
  lemma {:induction false} ProductSizeConcat<T>(a: seq<seq<T>>, c: seq<seq<T>>)
    ensures ProductSize(a + c) == ProductSize(a) * ProductSize(c)
    decreases |c|
  {
    if c == [] {
      assert a + c == a;
    } else {
      var init := c[..|c| - 1];
      assert (a + c)[..|a + c| - 1] == a + init;
      assert (a + c)[|a + c| - 1] == c[|c| - 1];
      ProductSizeConcat(a, init);
      assert ProductSize(a + c) == ProductSize(a) * ProductSize(init) * |c[|c| - 1]|;
    }
  }

  /** The size of one group, as a product. */
  lemma ProductSizeSingle<T>(g: seq<T>)
    ensures ProductSize([g]) == |g|
  {
    assert [g][..0] == [];
  }

  /** Combination `k` of an extension: combination `k mod n` so far, followed by variant `k div n`. */
  lemma {:induction false} ExtendAt<T>(ret: seq<seq<T>>, g: seq<T>, k: int)
    requires |ret| > 0 && 0 <= k < |g| * |ret|
    ensures k / |ret| < |g|
    ensures Extend(ret, g)[k] == ret[k % |ret|] + [g[k / |ret|]]
    decreases |g|
  {
    var n := |ret|;
    var head := AppendToEach(ret, g[0]);
    var rest := Extend(ret, g[1..]);
    assert Extend(ret, g) == head + rest;
    if k < n {
      DivModUnique(k, n, 0, k);
      assert Extend(ret, g)[k] == head[k];
    } else {
      DivStep(k, n, |g|);
      ExtendAt(ret, g[1..], k - n);
      assert Extend(ret, g)[k] == rest[k - n];
    }
  }

  /** Every combination picks exactly one item per group. */
  lemma {:induction false} ProductShape<T>(gs: seq<seq<T>>, k: int)
    requires 0 <= k < |Product(gs)|
    ensures |Product(gs)[k]| == |gs|
    decreases |gs|
  {
    if gs != [] {
      var p := Product(gs[..|gs| - 1]);
      var g := gs[|gs| - 1];
      assert |p| > 0;
      ExtendAt(p, g, k);
      ProductShape(gs[..|gs| - 1], k % |p|);
    }
  }

  /** The radix of position `j`: how many combinations pass before group `j` moves to its next variant. */
  function Radix<T>(gs: seq<seq<T>>, j: nat): nat
    requires j <= |gs|
  {
    ProductSize(gs[..j])
  }

  /** Combination `k` splits into a combination of all groups but the last, and a variant of the last. */
  lemma ProductLast<T>(gs: seq<seq<T>>, k: int)
    requires gs != [] && 0 <= k < |Product(gs)|
    ensures |Product(gs[..|gs| - 1])| > 0 && |gs[|gs| - 1]| > 0
    ensures 0 <= k / |Product(gs[..|gs| - 1])| < |gs[|gs| - 1]|
    ensures 0 <= k % |Product(gs[..|gs| - 1])| < |Product(gs[..|gs| - 1])|
    ensures Product(gs)[k] == Product(gs[..|gs| - 1])[k % |Product(gs[..|gs| - 1])|]
                              + [gs[|gs| - 1][k / |Product(gs[..|gs| - 1])|]]
    ensures |Product(gs[..|gs| - 1])[k % |Product(gs[..|gs| - 1])|]| == |gs| - 1
  {
    var p := Product(gs[..|gs| - 1]);
    ExtendAt(p, gs[|gs| - 1], k);
    DivNonNegative(k, |p|);
    ProductShape(gs[..|gs| - 1], k % |p|);
  }

  /** The product size around group `j`: the groups before it, it, and the groups after it. */
  lemma ProductSizeAround<T>(gs: seq<seq<T>>, j: int)
    requires 0 <= j < |gs|
    ensures ProductSize(gs) == ProductSize(gs[..j]) * (|gs[j]| * ProductSize(gs[j + 1..]))
  {
    assert gs == gs[..j] + gs[j..];
    ProductSizeConcat(gs[..j], gs[j..]);
    assert gs[j..] == [gs[j]] + gs[j + 1..];
    ProductSizeConcat([gs[j]], gs[j + 1..]);
    ProductSizeSingle(gs[j]);
  }

  /** The last position of combination `k` is the variant `k / radix` of the last group. */
  lemma ProductAtLast<T>(gs: seq<seq<T>>, k: int)
    requires gs != [] && 0 <= k < |Product(gs)|
    ensures 0 < Radix(gs, |gs| - 1) && 0 < |gs[|gs| - 1]| && |Product(gs)[k]| == |gs|
    ensures Product(gs)[k][|gs| - 1] == gs[|gs| - 1][(k / Radix(gs, |gs| - 1)) % |gs[|gs| - 1]|]
  {
    var j := |gs| - 1;
    var p := Product(gs[..j]);
    ProductLast(gs, k);
    ProductShape(gs, k);
    var q, b := k / |p|, |gs[j]|;
    DivNonNegative(k, |p|);
    SmallMod(q, b);
  }

  /** An earlier position of combination `k` is the one of combination `k mod n` of the groups but the last. */
  lemma ProductAtInit<T>(gs: seq<seq<T>>, k: int, j: int)
    requires 0 <= k < |Product(gs)| && 0 <= j < |gs| - 1
    requires |Product(gs[..|gs| - 1])| > 0
    requires var init, k' := gs[..|gs| - 1], k % |Product(gs[..|gs| - 1])|;
             0 < Radix(init, j) && 0 < |init[j]| && |Product(init)[k']| == |init|
             && Product(init)[k'][j] == init[j][(k' / Radix(init, j)) % |init[j]|]
    ensures 0 < Radix(gs, j) && 0 < |gs[j]| && |Product(gs)[k]| == |gs|
    ensures Product(gs)[k][j] == gs[j][(k / Radix(gs, j)) % |gs[j]|]
  {
    var init := gs[..|gs| - 1];
    var p := Product(init);
    ProductLast(gs, k);
    ProductShape(gs, k);
    assert init[..j] == gs[..j] && init[j] == gs[j];
    ProductSizeAround(init, j);
    var r, b, m := Radix(gs, j), |gs[j]|, ProductSize(init[j + 1..]);
    assert |p| == r * (b * m);
    PositiveFactors(r, b, m);
    DigitOfRemainder(k, r, b, m);
    assert Product(gs)[k][j] == p[k % |p|][j];
  }

  /** Mixed-radix order: position `j` of combination `k` is variant `(k / radix_j) mod |group_j|` of group `j`,
      so the first group varies fastest. */
  lemma {:induction false} ProductAt<T>(gs: seq<seq<T>>, k: int, j: int)
    requires 0 <= k < |Product(gs)| && 0 <= j < |gs|
    ensures 0 < Radix(gs, j) && 0 < |gs[j]| && |Product(gs)[k]| == |gs|
    ensures Product(gs)[k][j] == gs[j][(k / Radix(gs, j)) % |gs[j]|]
    decreases |gs|
  {
    if j == |gs| - 1 {
      ProductAtLast(gs, k);
    } else {
      var init := gs[..|gs| - 1];
      ProductLast(gs, k);
      ProductAt(init, k % |Product(init)|, j);
      ProductAtInit(gs, k, j);
    }
  }

  /** Every pick belongs to its group. */
  lemma ProductPicks<T>(gs: seq<seq<T>>, k: int, j: int)
    requires 0 <= k < |Product(gs)| && 0 <= j < |gs|
    ensures |Product(gs)[k]| == |gs| && Product(gs)[k][j] in gs[j]
  {
    ProductAt(gs, k, j);
  }

  /** Every group holds exactly one variant. */
  predicate AllSingletons<T>(gs: seq<seq<T>>)
  {
    forall i :: 0 <= i < |gs| ==> |gs[i]| == 1
  }

  /** The only variant of each single-variant group, in order. */
  function Firsts<T>(gs: seq<seq<T>>): (r: seq<T>)
    requires AllSingletons(gs)
    ensures |r| == |gs|
  {
    seq(|gs|, i requires 0 <= i < |gs| => gs[i][0])
  }

  /** Every combination of `ret`, each followed by `t`. */
  function AppendAll<T>(ret: seq<seq<T>>, t: seq<T>): (r: seq<seq<T>>)
    ensures |r| == |ret|
  {
    seq(|ret|, i requires 0 <= i < |ret| => ret[i] + t)
  }

  /** Single-variant groups after `gs` add their variants to the end of every combination of `gs`. */
  lemma {:induction false} ProductThenSingletons<T>(gs: seq<seq<T>>, hs: seq<seq<T>>)
    requires AllSingletons(hs)
    ensures Product(gs + hs) == AppendAll(Product(gs), Firsts(hs))
    decreases |hs|
  {
    var p := Product(gs);
    if hs == [] {
      assert gs + hs == gs;
      assert forall i :: 0 <= i < |p| ==> p[i] + [] == p[i];
    } else {
      var init, x := hs[..|hs| - 1], hs[|hs| - 1][0];
      assert AllSingletons(init);
      ProductThenSingletons(gs, init);
      var all := gs + hs;
      assert all[..|all| - 1] == gs + init && all[|all| - 1] == [x];
      ExtendAll(Product(gs + init), [x]);
      assert Firsts(hs) == Firsts(init) + [x];
      forall i | 0 <= i < |p|
        ensures (p[i] + Firsts(init)) + [x] == p[i] + Firsts(hs)
      {
      }
    }
  }

  /** Groups of one variant each have exactly one combination: the variants in group order. */
  lemma ProductOfSingletons<T>(gs: seq<seq<T>>)
    requires AllSingletons(gs)
    ensures Product(gs) == [Firsts(gs)]
  {
    ProductThenSingletons([], gs);
    assert [] + gs == gs;
    assert [] + Firsts(gs) == Firsts(gs);
  }

  /** The fruit basket alone: one combination per fruit. */
  lemma FruitBasket()
    ensures Product([["apple", "banana", "orange"]]) == [["apple"], ["banana"], ["orange"]]
  {
    var fruits := ["apple", "banana", "orange"];
    assert [fruits][..0] == [];
    var none: seq<string> := [];
    ExtendAll([none], fruits);
    assert none + ["apple"] == ["apple"] && none + ["banana"] == ["banana"] && none + ["orange"] == ["orange"];
    assert AppendToEach([none], "apple") == [["apple"]];
    assert AppendToEach([none], "banana") == [["banana"]];
    assert AppendToEach([none], "orange") == [["orange"]];
  }

  /** Fruits and the single sweet. */
  lemma FruitAndSweetBaskets()
    ensures Product([["apple", "banana", "orange"], ["chocolate"]])
         == [["apple", "chocolate"], ["banana", "chocolate"], ["orange", "chocolate"]]
  {
    var fruits := ["apple", "banana", "orange"];
    var p1 := [["apple"], ["banana"], ["orange"]];
    assert [fruits, ["chocolate"]][..1] == [fruits];
    FruitBasket();
    ExtendAll(p1, ["chocolate"]);
    assert p1[0] + ["chocolate"] == ["apple", "chocolate"];
    assert p1[1] + ["chocolate"] == ["banana", "chocolate"];
    assert p1[2] + ["chocolate"] == ["orange", "chocolate"];
    assert AppendToEach(p1, "chocolate") == [["apple", "chocolate"], ["banana", "chocolate"], ["orange", "chocolate"]];
  }

  /** The fruit, sweet and drink baskets of the class documentation, in that order. */
  lemma Baskets()
    ensures Product([["apple", "banana", "orange"], ["chocolate"], ["water", "wine"]]) == [
      ["apple", "chocolate", "water"], ["banana", "chocolate", "water"], ["orange", "chocolate", "water"],
      ["apple", "chocolate", "wine"], ["banana", "chocolate", "wine"], ["orange", "chocolate", "wine"]]
  {
    var gs := [["apple", "banana", "orange"], ["chocolate"], ["water", "wine"]];
    var p2 := [["apple", "chocolate"], ["banana", "chocolate"], ["orange", "chocolate"]];
    assert gs[..2] == [["apple", "banana", "orange"], ["chocolate"]];
    FruitAndSweetBaskets();
    ExtendAll(p2, ["water", "wine"]);
    assert p2[0] + ["water"] == ["apple", "chocolate", "water"];
    assert p2[1] + ["water"] == ["banana", "chocolate", "water"];
    assert p2[2] + ["water"] == ["orange", "chocolate", "water"];
    assert AppendToEach(p2, "water")
        == [["apple", "chocolate", "water"], ["banana", "chocolate", "water"], ["orange", "chocolate", "water"]];
    assert p2[0] + ["wine"] == ["apple", "chocolate", "wine"];
    assert p2[1] + ["wine"] == ["banana", "chocolate", "wine"];
    assert p2[2] + ["wine"] == ["orange", "chocolate", "wine"];
    assert AppendToEach(p2, "wine")
        == [["apple", "chocolate", "wine"], ["banana", "chocolate", "wine"], ["orange", "chocolate", "wine"]];
  }

  /** `Extend` written out element by element: all of `ret` with the first variant, then with the next. */
  lemma ExtendAll<T>(ret: seq<seq<T>>, g: seq<T>)
    ensures |g| == 1 ==> Extend(ret, g) == AppendToEach(ret, g[0])
    ensures |g| == 2 ==> Extend(ret, g) == AppendToEach(ret, g[0]) + AppendToEach(ret, g[1])
    ensures |g| == 3 ==> Extend(ret, g) == AppendToEach(ret, g[0]) + AppendToEach(ret, g[1]) + AppendToEach(ret, g[2])
  {
    if |g| >= 1 {
      assert g[1..][..0] == [];
    }
    if |g| == 1 {
      assert g[1..] == [];
    } else if |g| == 2 {
      assert g[1..][1..] == [];
    } else if |g| == 3 {
      assert g[1..][1..][1..] == [];
    }
  }

  /** Opens a fresh builder on the fruit group of the class documentation, one call at a time. */
  method FillFruits() returns (builder: RuleOfProductComboBuilder<string>)
    ensures fresh(builder) && builder.Valid()
    ensures builder.groups == [["apple", "banana", "orange"]]
  {
    builder := new RuleOfProductComboBuilder<string>();
    var o := builder.NewGroup();
    assert builder.groups == [[]];
    assert builder.groups[..0] == [] && builder.groups[0] + ["apple"] == ["apple"];
    builder.Variant("apple");
    assert builder.groups == [["apple"]];
    assert builder.groups[..0] == [] && builder.groups[0] + ["banana"] == ["apple", "banana"];
    builder.Variant("banana");
    assert builder.groups == [["apple", "banana"]];
    assert builder.groups[..0] == [] && builder.groups[0] + ["orange"] == ["apple", "banana", "orange"];
    builder.Variant("orange");
  }

  /** Fills a fresh builder with the baskets of the class documentation, one call at a time. */
  method FillBaskets() returns (builder: RuleOfProductComboBuilder<string>)
    ensures fresh(builder) && builder.Valid()
    ensures builder.groups == [["apple", "banana", "orange"], ["chocolate"], ["water", "wine"]]
  {
    builder := FillFruits();
    var o := builder.NewGroup();
    assert o.Pass? && builder.groups == [["apple", "banana", "orange"], []];
    assert builder.groups[..1] == [["apple", "banana", "orange"]] && builder.groups[1] + ["chocolate"] == ["chocolate"];
    builder.Variant("chocolate");
    assert builder.groups == [["apple", "banana", "orange"], ["chocolate"]];
    o := builder.NewGroup();
    assert builder.groups == [["apple", "banana", "orange"], ["chocolate"], []];
    assert builder.groups[..2] == [["apple", "banana", "orange"], ["chocolate"]] && builder.groups[2] + ["water"] == ["water"];
    builder.Variant("water");
    assert builder.groups == [["apple", "banana", "orange"], ["chocolate"], ["water"]];
    assert builder.groups[..2] == [["apple", "banana", "orange"], ["chocolate"]] && builder.groups[2] + ["wine"] == ["water", "wine"];
    builder.Variant("wine");
  }

  /** The baskets of the class documentation, built through the builder. */
  method BasketScenario()
  {
    var builder := FillBaskets();
    var size := builder.ComputeProductSize();
    var result := builder.Build();
    Baskets();
    assert size == Success(6) && result.Success? && |result.value| == 6;
    assert result.value[0] == ["apple", "chocolate", "water"];
    assert result.value[5] == ["orange", "chocolate", "wine"];
    var again := builder.Build();
    assert again == result;
  }

  /** Querying and building with an empty current group. */
  method EmptyGroupScenario()
  {
    var b2 := new RuleOfProductComboBuilder<string>();
    assert b2.IsGroupEmpty() && b2.IsEmpty();
    var o := b2.NewGroup();
    assert b2.IsGroupEmpty() && b2.IsEmpty();
    o := b2.NewGroup();
    assert o == Fail(IllegalState);
    var failed := b2.Build();
    assert failed == Failure(IllegalState);
    b2.Variant("foo");
    assert !b2.IsGroupEmpty() && !b2.IsEmpty();
    o := b2.NewGroup();
    assert b2.IsGroupEmpty() && !b2.IsEmpty();
  }

  /** A variant added before any group opens the first group. */
  method ImplicitGroupScenario()
  {
    var b3 := new RuleOfProductComboBuilder<string>();
    b3.Variant("foo");
    assert b3.groups == [["foo"]];
    b3.Variants([]);
    assert b3.groups == [["foo"]];
  }
}
