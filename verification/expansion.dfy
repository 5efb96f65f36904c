/** `foreach_generate_target_dir_contents`: the `--foreach` variables are
    expanded into every combination of their values, and the per-directory
    generation runs once per combination.

    The leaf call is replaced by appending its variable map to the result,
    so `Expand` returns the variable maps of the leaf calls in the order the
    calls are made. */
module Expansion {
  import opened Mapper
  import opened GenerateArgs

  type Vars = map<string, string>

  /** The leaf calls' variable maps: with no `--foreach` variable, one call
      with the input variables; otherwise, for each value of the first
      variable in order, the expansion of the remaining variables on top of
      the input extended with that value. Each call works on its own copy,
      so the caller's map is never changed. */
  function Expand(fv: seq<ForeachVar>, input: Vars): (r: seq<Vars>)
    ensures |r| == Product(fv)
    decreases |fv|, 1, 0
  {
    if |fv| == 0 then [input]
    else ExpandEach(fv[0].name, fv[0].values, fv[1..], input)
  }

  /** The loop over the values of one variable. */
  function ExpandEach(name: string, values: seq<string>, tail: seq<ForeachVar>, input: Vars): (r: seq<Vars>)
    ensures |r| == |values| * Product(tail)
    decreases |tail| + 1, 0, |values|
  {
    if |values| == 0 then []
    else Expand(tail, input[name := values[0]]) + ExpandEach(name, values[1..], tail, input)
  }

  /** The number of combinations: the product of the list lengths. */
  function Product(fv: seq<ForeachVar>): nat {
    if |fv| == 0 then 1 else |fv[0].values| * Product(fv[1..])
  }

  /** A combination: one value position per variable. */
  predicate ValidChoice(c: seq<nat>, fv: seq<ForeachVar>) {
    |c| == |fv| && forall j | 0 <= j < |c| :: c[j] < |fv[j].values|
  }

  lemma ValidChoiceTail(c: seq<nat>, fv: seq<ForeachVar>)
    requires |fv| >= 1 && ValidChoice(c, fv)
    ensures ValidChoice(c[1..], fv[1..])
  {
    assert forall j | 0 <= j < |c| - 1 :: c[1..][j] == c[j + 1] && fv[1..][j] == fv[j + 1];
  }

  /** The variable map of a combination: each variable, from the first to
      the last, bound to its chosen value on top of the input. */
  function Bind(input: Vars, fv: seq<ForeachVar>, c: seq<nat>): Vars
    requires ValidChoice(c, fv)
    decreases |fv|
  {
    if |fv| == 0 then input
    else
      ValidChoiceTail(c, fv);
      Bind(input[fv[0].name := fv[0].values[c[0]]], fv[1..], c[1..])
  }

  /** The position of a combination among the leaf calls: mixed-radix
      notation with the first variable as the most significant digit. */
  function Index(c: seq<nat>, fv: seq<ForeachVar>): (r: nat)
    requires ValidChoice(c, fv)
    ensures r < Product(fv)
    decreases |fv|
  {
    if |fv| == 0 then 0
    else
      ValidChoiceTail(c, fv);
      var p := Product(fv[1..]);
      var rest := Index(c[1..], fv[1..]);
      BlockBound(c[0], |fv[0].values|, p, rest);
      c[0] * p + rest
  }

  lemma MulMono(a: nat, b: nat, p: nat)
    requires a <= b
    ensures a * p <= b * p
  {
    assert b * p == a * p + (b - a) * p;
  }

  /** `a * p + b` with `b < p` lies before block `n` when `a < n`. */
  lemma BlockBound(a: nat, n: nat, p: nat, b: nat)
    requires a < n && b < p
    ensures a * p + b < n * p
  {
    assert (a + 1) * p == a * p + p;
    MulMono(a + 1, n, p);
  }

  /** The block of a position and its offset in the block. */
  lemma QuotientBound(j: nat, n: nat, p: nat)
    requires p >= 1 && j < n * p
    ensures j == (j / p) * p + j % p && j % p < p
    ensures j / p < n
  {
    var a := j / p;
    if a >= n {
      MulMono(n, a, p);
    }
  }

  /** The combination at a position: the inverse of `Index`. */
  function Decode(j: nat, fv: seq<ForeachVar>): (c: seq<nat>)
    requires j < Product(fv)
    ensures ValidChoice(c, fv) && Index(c, fv) == j
    decreases |fv|
  {
    if |fv| == 0 then []
    else
      var p := Product(fv[1..]);
      assert p > 0;
      var a := j / p;
      QuotientBound(j, |fv[0].values|, p);
      var rest := Decode(j % p, fv[1..]);
      ChoiceCons(a, rest, fv);
      [a] + rest
  }

  /** Choosing value `a` of the first variable in front of a combination
      of the others: a block of `Product(fv[1..])` positions per value. */
  lemma ChoiceCons(a: nat, rest: seq<nat>, fv: seq<ForeachVar>)
    requires |fv| >= 1 && a < |fv[0].values| && ValidChoice(rest, fv[1..])
    ensures ValidChoice([a] + rest, fv)
    ensures Index([a] + rest, fv) == a * Product(fv[1..]) + Index(rest, fv[1..])
  {
    var c := [a] + rest;
    forall k | 0 <= k < |c| ensures c[k] < |fv[k].values| {
      if k > 0 {
        assert c[k] == rest[k - 1] && fv[k] == fv[1..][k - 1];
      }
    }
    assert c[1..] == rest;
  }

  /** Distinct combinations sit at distinct positions. */
  lemma {:induction false} IndexInjective(c: seq<nat>, d: seq<nat>, fv: seq<ForeachVar>)
    requires ValidChoice(c, fv) && ValidChoice(d, fv)
    requires Index(c, fv) == Index(d, fv)
    ensures c == d
    decreases |fv|
  {
    if |fv| > 0 {
      ValidChoiceTail(c, fv);
      ValidChoiceTail(d, fv);
      var p := Product(fv[1..]);
      var ic := Index(c[1..], fv[1..]);
      var id := Index(d[1..], fv[1..]);
      DivModUniqueNat(c[0], ic, d[0], id, p);
      IndexInjective(c[1..], d[1..], fv[1..]);
      assert c == [c[0]] + c[1..] && d == [d[0]] + d[1..];
    }
  }

  lemma DivModUniqueNat(a: nat, b: nat, x: nat, y: nat, p: nat)
    requires b < p && y < p && a * p + b == x * p + y
    ensures a == x && b == y
  {
    DivModUnique(a * p + b, p, a, b);
    DivModUnique(x * p + y, p, x, y);
  }

  /** The first variable is outermost: when two combinations first differ
      at some variable, the one with the earlier value there comes first. */
  lemma {:induction false} IndexLexicographic(c: seq<nat>, d: seq<nat>, fv: seq<ForeachVar>, t: nat)
    requires ValidChoice(c, fv) && ValidChoice(d, fv)
    requires t < |fv| && c[..t] == d[..t] && c[t] < d[t]
    ensures Index(c, fv) < Index(d, fv)
    decreases |fv|
  {
    ValidChoiceTail(c, fv);
    ValidChoiceTail(d, fv);
    var p := Product(fv[1..]);
    var ic := Index(c[1..], fv[1..]);
    var id := Index(d[1..], fv[1..]);
    if t == 0 {
      BlockBound(c[0], d[0], p, ic);
    } else {
      assert c[0] == c[..t][0] == d[..t][0] == d[0];
      assert c[1..][..t - 1] == c[1..t] == d[1..t] == d[1..][..t - 1];
      IndexLexicographic(c[1..], d[1..], fv[1..], t - 1);
    }
  }

  /** The leaf call for each value of one variable is a block of the
      expansion of the remaining variables. */
  lemma {:induction false} ExpandEachAt(name: string, values: seq<string>, tail: seq<ForeachVar>, input: Vars, a: nat, b: nat)
    requires a < |values| && b < Product(tail)
    ensures a * Product(tail) + b < |ExpandEach(name, values, tail, input)|
    ensures ExpandEach(name, values, tail, input)[a * Product(tail) + b] == Expand(tail, input[name := values[a]])[b]
    decreases a
  {
    BlockBound(a, |values|, Product(tail), b);
    var first := Expand(tail, input[name := values[0]]);
    var rest := ExpandEach(name, values[1..], tail, input);
    if a > 0 {
      ExpandEachAt(name, values[1..], tail, input, a - 1, b);
      assert values[1..][a - 1] == values[a];
      assert a * Product(tail) == (a - 1) * Product(tail) + Product(tail);
    }
  }

  /** The leaf call at the position of a combination gets the variables of
      that combination: every combination is visited, at its mixed-radix
      position. */
  lemma {:induction false} ExpandAt(fv: seq<ForeachVar>, input: Vars, c: seq<nat>)
    requires ValidChoice(c, fv)
    ensures Expand(fv, input)[Index(c, fv)] == Bind(input, fv, c)
    decreases |fv|
  {
    if |fv| > 0 {
      ValidChoiceTail(c, fv);
      var next := input[fv[0].name := fv[0].values[c[0]]];
      ExpandEachAt(fv[0].name, fv[0].values, fv[1..], input, c[0], Index(c[1..], fv[1..]));
      ExpandAt(fv[1..], next, c[1..]);
    }
  }

  /** Every leaf call gets the variables of exactly one combination, and the
      calls run through the combinations in order. */
  lemma ExpandIsProduct(fv: seq<ForeachVar>, input: Vars)
    ensures forall j | 0 <= j < |Expand(fv, input)| ::
      Expand(fv, input)[j] == Bind(input, fv, Decode(j, fv))
  {
    forall j | 0 <= j < |Expand(fv, input)|
      ensures Expand(fv, input)[j] == Bind(input, fv, Decode(j, fv))
    {
      ExpandAt(fv, input, Decode(j, fv));
    }
  }

  /** The keys of a combination's map: the input's keys and the variable
      names. */
  lemma {:induction false} BindKeys(input: Vars, fv: seq<ForeachVar>, c: seq<nat>, key: string)
    requires ValidChoice(c, fv)
    ensures key in Bind(input, fv, c) <==> key in input || key in ForeachNames(fv)
    decreases |fv|
  {
    if |fv| > 0 {
      ValidChoiceTail(c, fv);
      BindKeys(input[fv[0].name := fv[0].values[c[0]]], fv[1..], c[1..], key);
      ForeachNamesCons(fv);
    }
  }

  lemma ForeachNamesCons(fv: seq<ForeachVar>)
    requires |fv| >= 1
    ensures ForeachNames(fv) == [fv[0].name] + ForeachNames(fv[1..])
  {
    var tail := ForeachNames(fv[1..]);
    var r := [fv[0].name] + tail;
    var names := ForeachNames(fv);
    forall k | 0 <= k < |fv| ensures r[k] == names[k] {
      if k > 0 {
        assert r[k] == tail[k - 1] == fv[1..][k - 1].name;
      }
    }
  }

  /** A key that is no variable name keeps its input value. */
  lemma {:induction false} BindKeepsInput(input: Vars, fv: seq<ForeachVar>, c: seq<nat>, key: string)
    requires ValidChoice(c, fv) && key in input && key !in ForeachNames(fv)
    ensures key in Bind(input, fv, c) && Bind(input, fv, c)[key] == input[key]
    decreases |fv|
  {
    if |fv| > 0 {
      ValidChoiceTail(c, fv);
      ForeachNamesCons(fv);
      BindKeepsInput(input[fv[0].name := fv[0].values[c[0]]], fv[1..], c[1..], key);
    }
  }

  /** With distinct names, each variable is bound to its chosen value. */
  lemma {:induction false} BindChosen(input: Vars, fv: seq<ForeachVar>, c: seq<nat>, j: nat)
    requires ValidChoice(c, fv) && Distinct(ForeachNames(fv)) && j < |fv|
    ensures fv[j].name in Bind(input, fv, c)
    ensures Bind(input, fv, c)[fv[j].name] == fv[j].values[c[j]]
    decreases |fv|
  {
    ValidChoiceTail(c, fv);
    ForeachNamesCons(fv);
    var names := ForeachNames(fv);
    var next := input[fv[0].name := fv[0].values[c[0]]];
    assert Distinct(ForeachNames(fv[1..])) by {
      forall a, b | 0 <= a < b < |fv| - 1
        ensures ForeachNames(fv[1..])[a] != ForeachNames(fv[1..])[b]
      {
        assert names[a + 1] != names[b + 1];
      }
    }
    if j == 0 {
      assert fv[0].name !in ForeachNames(fv[1..]) by {
        forall k | 0 <= k < |fv| - 1 ensures ForeachNames(fv[1..])[k] != fv[0].name {
          assert names[0] != names[k + 1];
        }
      }
      BindKeepsInput(next, fv[1..], c[1..], fv[0].name);
    } else {
      BindChosen(next, fv[1..], c[1..], j - 1);
      assert fv[1..][j - 1] == fv[j] && c[1..][j - 1] == c[j];
    }
  }
}
