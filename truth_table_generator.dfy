/** `generate_truth_table`: one row per combination of truth values of the
    conditions, in the order of `itertools.product([False, True], repeat=n)`,
    each row mapping the condition names to their values and `Decision` to
    the truth value of the expression; no table at all when an evaluation
    fails. */
module TruthTableGenerator {
  import opened Wrappers

  /** A row of the table, a Python `dict` from names to booleans. */
  type Row = map<string, bool>

  /** The key under which a row stores the value of the expression. */
  const DecisionKey: string := "Decision"

  /** The outcome of `bool(eval(expression, {}, row))`: a truth value, or an
      exception (a `SyntaxError`, a `NameError` or any other). */
  datatype Evaluation = Value(truthy: bool) | Raised

  /** Python's `eval` of an expression in a namespace, with `bool` applied to
      its result. It is a parameter of the model: the expression language is
      not modelled. */
  type Evaluator = (string, Row) -> Evaluation

  // ---------------------------------------------------------------------------
  // Enumeration of the combinations

  function Pow2(n: nat): (r: nat)
    ensures r >= 1
  {
    if n == 0 then 1 else 2 * Pow2(n - 1)
  }

  /** `itertools.product([False, True], repeat=n)`: the first position varies
      slowest, and `False` comes before `True`. */
  function Product(n: nat): (r: seq<seq<bool>>)
    ensures |r| == Pow2(n)
    ensures forall k :: 0 <= k < |r| ==> |r[k]| == n
  {
    if n == 0 then [[]]
    else
      var p := Product(n - 1);
      seq(|p|, k requires 0 <= k < |p| => [false] + p[k]) +
      seq(|p|, k requires 0 <= k < |p| => [true] + p[k])
  }

  /** The number a combination spells in binary, first position most
      significant, `True` as 1. */
  function Rank(c: seq<bool>): (r: nat)
    ensures r < Pow2(|c|)
  {
    if c == [] then 0 else (if c[0] then Pow2(|c| - 1) else 0) + Rank(c[1..])
  }

  /** Bit `b` of `i`, bit 0 being the least significant. */
  function Bit(i: nat, b: nat): bool
  {
    if b == 0 then i % 2 == 1 else Bit(i / 2, b - 1)
  }

  /** Bitwise exclusive or of two naturals, Python's `^` on non-negative ints. */
  function Xor(i: nat, j: nat): nat
    decreases i + j
  {
    if i == 0 && j == 0 then 0
    else 2 * Xor(i / 2, j / 2) + (if i % 2 != j % 2 then 1 else 0)
  }

  /** The first half of the enumeration starts with `False`, the second with
      `True`, each followed by the enumeration of one position fewer. */
  lemma ProductRow(n: nat, i: nat)
    requires n > 0 && i < Pow2(n)
    ensures Pow2(n) == 2 * Pow2(n - 1)
    ensures i < Pow2(n - 1) ==> Product(n)[i] == [false] + Product(n - 1)[i]
    ensures i >= Pow2(n - 1) ==> Product(n)[i] == [true] + Product(n - 1)[i - Pow2(n - 1)]
  {
  }

  /** Row `i` of the enumeration spells `i`: the index of a combination is its rank. */
  lemma {:induction false} ProductRank(n: nat, i: nat)
    requires i < Pow2(n)
    ensures Rank(Product(n)[i]) == i
  {
    if n > 0 {
      ProductRow(n, i);
      var h := i >= Pow2(n - 1);
      var rest := if h then i - Pow2(n - 1) else i;
      ProductRank(n - 1, rest);
      assert Product(n)[i] == [h] + Product(n - 1)[rest];
      assert ([h] + Product(n - 1)[rest])[1..] == Product(n - 1)[rest];
    }
  }

  /** Every combination of length `n` is in the enumeration, at its rank. */
  lemma {:induction false} RankProduct(c: seq<bool>)
    ensures Product(|c|)[Rank(c)] == c
  {
    if c != [] {
      var n := |c|;
      RankProduct(c[1..]);
      ProductRow(n, Rank(c));
      assert Rank(c) - (if c[0] then Pow2(n - 1) else 0) == Rank(c[1..]);
      assert Product(n)[Rank(c)] == [c[0]] + Product(n - 1)[Rank(c[1..])];
      assert c == [c[0]] + c[1..];
    }
  }

  /** Each combination of `n` truth values appears in the enumeration, and
      exactly once. */
  lemma ProductExactlyOnce(n: nat, c: seq<bool>)
    requires |c| == n
    ensures c in Product(n)
    ensures forall i :: 0 <= i < Pow2(n) && Product(n)[i] == c ==> i == Rank(c)
  {
    RankProduct(c);
    forall i | 0 <= i < Pow2(n) && Product(n)[i] == c ensures i == Rank(c) {
      ProductRank(n, i);
    }
  }

  /** The rows of the enumeration are pairwise distinct. */
  lemma ProductDistinct(n: nat, i: nat, j: nat)
    requires i < Pow2(n) && j < Pow2(n) && i != j
    ensures Product(n)[i] != Product(n)[j]
  {
    ProductRank(n, i);
    ProductRank(n, j);
  }

  // ---------------------------------------------------------------------------
  // Bits of a row index

  lemma {:induction false} BitTop(i: nat, m: nat)
    requires i < 2 * Pow2(m)
    ensures Bit(i, m) == (i >= Pow2(m))
  {
    if m > 0 {
      BitTop(i / 2, m - 1);
    }
  }

  lemma {:induction false} BitBelowTop(i: nat, m: nat, b: nat)
    requires b < m && i >= Pow2(m)
    ensures Bit(i, b) == Bit(i - Pow2(m), b)
  {
    if b > 0 {
      assert (i - Pow2(m)) / 2 == i / 2 - Pow2(m - 1);
      BitBelowTop(i / 2, m - 1, b - 1);
    }
  }

  /** Position `k` of row `i` is bit `n-1-k` of `i`: the first condition is
      the most significant bit. */
  lemma {:induction false} ProductBit(n: nat, i: nat, k: nat)
    requires i < Pow2(n) && k < n
    ensures Product(n)[i][k] == Bit(i, n - 1 - k)
  {
    ProductRow(n, i);
    BitTop(i, n - 1);
    var h := i >= Pow2(n - 1);
    var rest := if h then i - Pow2(n - 1) else i;
    assert Product(n)[i] == [h] + Product(n - 1)[rest];
    if k > 0 {
      assert Product(n)[i][k] == Product(n - 1)[rest][k - 1];
      ProductBit(n - 1, rest, k - 1);
      if h {
        BitBelowTop(i, n - 1, n - 1 - k);
      }
    }
  }

  lemma {:induction false} BitOfZero(b: nat)
    ensures !Bit(0, b)
  {
    if b > 0 {
      BitOfZero(b - 1);
    }
  }

  lemma {:induction false} BitOfPow2(c: nat, b: nat)
    ensures Bit(Pow2(c), b) == (b == c)
  {
    if b == 0 {
      if c > 0 {
        assert Pow2(c) == 2 * Pow2(c - 1);
      }
    } else if c == 0 {
      BitOfZero(b - 1);
    } else {
      BitOfPow2(c - 1, b - 1);
    }
  }

  /** `Xor` is bitwise: each bit of the result is the exclusive or of the
      operands' bits. */
  lemma {:induction false} BitOfXor(i: nat, j: nat, b: nat)
    ensures Bit(Xor(i, j), b) == (Bit(i, b) != Bit(j, b))
    decreases b
  {
    if i == 0 && j == 0 {
      BitOfZero(b);
    } else if b > 0 {
      assert Xor(i, j) / 2 == Xor(i / 2, j / 2);
      BitOfXor(i / 2, j / 2, b - 1);
    }
  }

  lemma {:induction false} XorBound(i: nat, j: nat, n: nat)
    requires i < Pow2(n) && j < Pow2(n)
    ensures Xor(i, j) < Pow2(n)
    decreases n
  {
    if n > 0 && !(i == 0 && j == 0) {
      XorBound(i / 2, j / 2, n - 1);
    }
  }

  /** Below `2^n`, a number is determined by its lowest `n` bits. */
  lemma {:induction false} BitsDetermine(i: nat, j: nat, n: nat)
    requires i < Pow2(n) && j < Pow2(n)
    requires forall b :: 0 <= b < n ==> Bit(i, b) == Bit(j, b)
    ensures i == j
  {
    if n > 0 {
      assert Bit(i, 0) == Bit(j, 0);
      forall b | 0 <= b < n - 1 ensures Bit(i / 2, b) == Bit(j / 2, b) {
        assert Bit(i, b + 1) == Bit(j, b + 1);
      }
      BitsDetermine(i / 2, j / 2, n - 1);
    }
  }

  /** `u` and `v` differ at position `k` and nowhere else. */
  predicate DiffersExactlyAt(u: seq<bool>, v: seq<bool>, k: nat)
  {
    && |u| == |v| && k < |u| && u[k] != v[k]
    && forall m :: 0 <= m < |u| && m != k ==> u[m] == v[m]
  }

  /** Rows `i` and `j` of the enumeration differ in exactly position `k` if
      and only if `j == i ^ 2^(n-1-k)`. */
  lemma ProductFlip(n: nat, i: nat, j: nat, k: nat)
    requires i < Pow2(n) && j < Pow2(n) && k < n
    ensures DiffersExactlyAt(Product(n)[i], Product(n)[j], k) <==> j == Xor(i, Pow2(n - 1 - k))
  {
    var f := Xor(i, Pow2(n - 1 - k));
    forall m | 0 <= m < n
      ensures Product(n)[i][m] == Bit(i, n - 1 - m) && Product(n)[j][m] == Bit(j, n - 1 - m)
      ensures Bit(f, n - 1 - m) == (Bit(i, n - 1 - m) != (m == k))
    {
      ProductBit(n, i, m);
      ProductBit(n, j, m);
      BitOfXor(i, Pow2(n - 1 - k), n - 1 - m);
      BitOfPow2(n - 1 - k, n - 1 - m);
    }
    if DiffersExactlyAt(Product(n)[i], Product(n)[j], k) {
      forall b | 0 <= b < n ensures Bit(j, b) == Bit(f, b) {
        var m := n - 1 - b;
        assert n - 1 - m == b;
        assert Product(n)[j][m] == (Product(n)[i][m] != (m == k));
      }
      Pow2Monotone(n - 1 - k, n);
      XorBound(i, Pow2(n - 1 - k), n);
      BitsDetermine(j, f, n);
    }
  }

  lemma {:induction false} Pow2Monotone(a: nat, b: nat)
    requires a < b
    ensures Pow2(a) < Pow2(b)
  {
    if a + 1 < b {
      Pow2Monotone(a, b - 1);
    }
  }

  // ---------------------------------------------------------------------------
  // Rows

  /** `dict(zip(keys, values))`: when a key repeats, its last value wins. */
  function Zip(keys: seq<string>, values: seq<bool>): (r: Row)
    requires |keys| == |values|
    ensures forall x :: x in r <==> x in keys
  {
    if keys == [] then map[]
    else Zip(keys[..|keys| - 1], values[..|values| - 1])[keys[|keys| - 1] := values[|values| - 1]]
  }

  /** Names that all differ. */
  predicate Distinct(names: seq<string>)
  {
    forall a, b :: 0 <= a < b < |names| ==> names[a] != names[b]
  }

  /** With distinct keys, each key maps to the value at its own position. */
  lemma {:induction false} ZipLookup(keys: seq<string>, values: seq<bool>, m: nat)
    requires |keys| == |values| && Distinct(keys) && m < |keys|
    ensures Zip(keys, values)[keys[m]] == values[m]
  {
    var n := |keys| - 1;
    if m < n {
      assert keys[m] != keys[n];
      assert keys[..n][m] == keys[m];
      assert Distinct(keys[..n]);
      ZipLookup(keys[..n], values[..n], m);
    }
  }

  /** The namespace `eval` sees for combination `i`. */
  function Namespace(conditions: seq<string>, i: nat): Row
    requires i < Pow2(|conditions|)
  {
    Zip(conditions, Product(|conditions|)[i])
  }

  /** Evaluation succeeds on every combination. */
  predicate EvaluatesEverywhere(expression: string, conditions: seq<string>, eval: Evaluator)
  {
    forall i :: 0 <= i < Pow2(|conditions|) ==> eval(expression, Namespace(conditions, i)).Value?
  }

  /** Row `i` of the table: the namespace with `Decision` set to the value of
      the expression (overwriting a condition of that name). */
  function RowAt(expression: string, conditions: seq<string>, eval: Evaluator, i: nat): Row
    requires i < Pow2(|conditions|) && eval(expression, Namespace(conditions, i)).Value?
  {
    Namespace(conditions, i)[DecisionKey := eval(expression, Namespace(conditions, i)).truthy]
  }

  /** What `generate_truth_table` returns: a row per combination, in
      enumeration order, when every evaluation succeeds; `None` otherwise. */
  function TruthTable(expression: string, conditions: seq<string>, eval: Evaluator): Option<seq<Row>>
  {
    if EvaluatesEverywhere(expression, conditions, eval) then
      Some(seq(Pow2(|conditions|), i requires 0 <= i < Pow2(|conditions|) && EvaluatesEverywhere(expression, conditions, eval) =>
        RowAt(expression, conditions, eval, i)))
    else None
  }

  /** `generate_truth_table(expression, conditions)`. */
  method GenerateTruthTable(expression: string, conditions: seq<string>, eval: Evaluator)
    returns (table: Option<seq<Row>>)
    ensures table == TruthTable(expression, conditions, eval)
  {
    var combinations := Product(|conditions|);
    var rows: seq<Row> := [];
    for i := 0 to |combinations|
      invariant |rows| == i
      invariant forall j :: 0 <= j < i ==> eval(expression, Namespace(conditions, j)).Value?
      invariant forall j :: 0 <= j < i ==> rows[j] == RowAt(expression, conditions, eval, j)
    {
      var row := Zip(conditions, combinations[i]);
      var decision := eval(expression, row);
      assert row == Namespace(conditions, i);
      if decision.Raised? {
        assert !EvaluatesEverywhere(expression, conditions, eval);
        return None;
      }
      row := row[DecisionKey := decision.truthy];
      rows := rows + [row];
    }
    assert rows == TruthTable(expression, conditions, eval).value;
    table := Some(rows);
  }

  // ---------------------------------------------------------------------------
  // Properties of the table

  /** All or nothing: there is no table exactly when some evaluation fails;
      otherwise the table has `2^n` rows. */
  lemma TruthTableAllOrNothing(expression: string, conditions: seq<string>, eval: Evaluator)
    ensures TruthTable(expression, conditions, eval).None? <==>
            exists i :: 0 <= i < Pow2(|conditions|) && eval(expression, Namespace(conditions, i)).Raised?
    ensures TruthTable(expression, conditions, eval).Some? ==>
            |TruthTable(expression, conditions, eval).value| == Pow2(|conditions|)
  {
  }

  /** The keys of each row are the conditions and `Decision`, and `Decision`
      holds the value of the expression on that row's combination. */
  lemma TruthTableRowKeys(expression: string, conditions: seq<string>, eval: Evaluator, i: nat)
    requires TruthTable(expression, conditions, eval).Some?
    requires i < |TruthTable(expression, conditions, eval).value|
    ensures forall x :: x in TruthTable(expression, conditions, eval).value[i] <==> x in conditions || x == DecisionKey
    ensures TruthTable(expression, conditions, eval).value[i][DecisionKey] ==
            eval(expression, Namespace(conditions, i)).truthy
  {
  }

  /** For distinct conditions, row `i` gives each condition `k` not named
      `Decision` the value at position `k` of combination `i`; only a
      condition named `Decision` is overwritten. */
  lemma TruthTableRowValue(expression: string, conditions: seq<string>, eval: Evaluator, i: nat, k: nat)
    requires TruthTable(expression, conditions, eval).Some?
    requires i < Pow2(|conditions|) && k < |conditions|
    requires Distinct(conditions) && conditions[k] != DecisionKey
    ensures conditions[k] in TruthTable(expression, conditions, eval).value[i]
    ensures TruthTable(expression, conditions, eval).value[i][conditions[k]] == Product(|conditions|)[i][k]
  {
    assert TruthTable(expression, conditions, eval).value[i] == RowAt(expression, conditions, eval, i);
    ZipLookup(conditions, Product(|conditions|)[i], k);
  }

  /** For distinct conditions, row `i` gives each condition `k` not named
      `Decision` bit `n-1-k` of `i`. */
  lemma TruthTableRowBits(expression: string, conditions: seq<string>, eval: Evaluator, i: nat, k: nat)
    requires TruthTable(expression, conditions, eval).Some?
    requires i < Pow2(|conditions|) && k < |conditions|
    requires Distinct(conditions) && conditions[k] != DecisionKey
    ensures TruthTable(expression, conditions, eval).value[i][conditions[k]] == Bit(i, |conditions| - 1 - k)
  {
    TruthTableRowValue(expression, conditions, eval, i, k);
    ProductBit(|conditions|, i, k);
  }

  /** The row at a combination's rank carries that combination, in every
      column not named `Decision`: the list index of a row is the rank of its
      combination. */
  lemma TruthTableRowAtRank(expression: string, conditions: seq<string>, eval: Evaluator, c: seq<bool>, k: nat)
    requires TruthTable(expression, conditions, eval).Some?
    requires |c| == |conditions| && k < |c|
    requires Distinct(conditions) && conditions[k] != DecisionKey
    ensures Rank(c) < |TruthTable(expression, conditions, eval).value|
    ensures TruthTable(expression, conditions, eval).value[Rank(c)][conditions[k]] == c[k]
  {
    RankProduct(c);
    TruthTableRowValue(expression, conditions, eval, Rank(c), k);
  }

  /** Rows `r1` and `r2` give different values to condition `k` and equal
      values to every other condition. */
  predicate RowsDifferExactlyAt(r1: Row, r2: Row, conditions: seq<string>, k: nat)
  {
    && k < |conditions|
    && (forall m :: 0 <= m < |conditions| ==> conditions[m] in r1 && conditions[m] in r2)
    && r1[conditions[k]] != r2[conditions[k]]
    && forall m :: 0 <= m < |conditions| && m != k ==> r1[conditions[m]] == r2[conditions[m]]
  }

  /** Rows `i` and `j` of the table differ in exactly condition `k` if and
      only if `j == i ^ 2^(n-1-k)`. */
  lemma TruthTableFlip(expression: string, conditions: seq<string>, eval: Evaluator, t: seq<Row>, i: nat, j: nat, k: nat)
    requires Distinct(conditions) && DecisionKey !in conditions
    requires TruthTable(expression, conditions, eval) == Some(t)
    requires i < |t| && j < |t| && k < |conditions|
    ensures RowsDifferExactlyAt(t[i], t[j], conditions, k) <==> j == Xor(i, Pow2(|conditions| - 1 - k))
  {
    var n := |conditions|;
    forall m | 0 <= m < n
      ensures conditions[m] in t[i] && conditions[m] in t[j]
      ensures t[i][conditions[m]] == Product(n)[i][m] && t[j][conditions[m]] == Product(n)[j][m]
    {
      TruthTableRowValue(expression, conditions, eval, i, m);
      TruthTableRowValue(expression, conditions, eval, j, m);
    }
    assert RowsDifferExactlyAt(t[i], t[j], conditions, k) <==> DiffersExactlyAt(Product(n)[i], Product(n)[j], k);
    ProductFlip(n, i, j, k);
  }

  /** A condition named `Decision` does not survive in the table: the key
      holds the expression's value, here for the expression `not Decision`
      on the combination where the condition is true. */
  lemma DecisionConditionOverwritten(eval: Evaluator)
    requires forall row :: eval("not Decision", row) == Value(!(DecisionKey in row && row[DecisionKey]))
    ensures TruthTable("not Decision", [DecisionKey], eval).Some?
    ensures Namespace([DecisionKey], 1)[DecisionKey]
    ensures !TruthTable("not Decision", [DecisionKey], eval).value[1][DecisionKey]
  {
    assert Product(1)[1] == [true];
  }
}
