/**
 * The text of the clauses the paginator attaches to a query
 * (buildOrderSQL, buildCursorSQLQuery, buildCursorSQLQueryArgs) as pure
 * functions, and what the keyset WHERE clause means: the rows it selects
 * are exactly those whose key tuple lies strictly beyond the cursor tuple
 * in the lexicographic order its operators describe.
 */
module Keyset {
  import opened Types
  import opened Strings

  /* ---------------------------------------------------------------- ORDER BY */

  /** One ORDER BY entry: the rule's expression and its order, flipped when `last > 0`. */
  function OrderEntry(r: Rule, last: int): string
  {
    r.sqlRepr + " " + OrderText(if last > 0 then Flip(r.order) else r.order)
  }

  /** The ORDER BY entries, one per rule, in rule order. */
  function OrderEntries(rules: seq<Rule>, last: int): (entries: seq<string>)
    ensures |entries| == |rules|
    ensures forall i :: 0 <= i < |rules| ==> entries[i] == OrderEntry(rules[i], last)
  {
    seq(|rules|, i requires 0 <= i < |rules| => OrderEntry(rules[i], last))
  }

  /** The ORDER BY text: the entries joined by ", ". */
  function OrderSQL(rules: seq<Rule>, last: int): string
  {
    Join(OrderEntries(rules, last), ", ")
  }

  /**
   * For a rule with a valid order, its ORDER BY entry shows the rule's own
   * order exactly when `last` is not positive, and the opposite order otherwise.
   */
  lemma OrderFlippedIffLast(rules: seq<Rule>, last: int, i: nat)
    requires i < |rules| && ValidOrder(rules[i].order)
    ensures OrderEntries(rules, last)[i] == rules[i].sqlRepr + " " + OrderText(rules[i].order) <==> last <= 0
    ensures OrderEntries(rules, last)[i] == rules[i].sqlRepr + " " + OrderText(Flip(rules[i].order)) <==> last > 0
  {
    var r := rules[i];
    var own := r.sqlRepr + " " + OrderText(r.order);
    var flipped := r.sqlRepr + " " + OrderText(Flip(r.order));
    assert |own| != |flipped| by {
      assert |OrderText(r.order)| != |OrderText(Flip(r.order))|;
    }
  }

  /* ------------------------------------------------------------ WHERE, as text */

  /** The comparison of one term of the keyset predicate. */
  datatype Cmp = Eq | Gt | Lt

  function Symbol(c: Cmp): string
  {
    match c
    case Eq => "="
    case Gt => ">"
    case Lt => "<"
  }

  /**
   * The strict operator used for a rule with order `o`: ">" when paging
   * forward over an ASC key or backward over a DESC key, "<" otherwise.
   */
  function Operator(forward: bool, backward: bool, o: Order): Cmp
  {
    if (forward && o == ASC) || (backward && o == DESC) then Gt else Lt
  }

  /** The accumulated `r0 = ? AND ... AND r(i-1) = ? AND ` in front of disjunct i. */
  function EqPrefix(rules: seq<Rule>, i: nat): string
    requires i <= |rules|
  {
    if i == 0 then "" else EqPrefix(rules, i - 1) + rules[i - 1].sqlRepr + " = ? AND "
  }

  /** Disjunct i of the keyset predicate, as buildCursorSQLQuery formats it. */
  function Disjunct(rules: seq<Rule>, i: nat, forward: bool, backward: bool): string
    requires i < |rules|
  {
    EqPrefix(rules, i) + rules[i].sqlRepr + " " + Symbol(Operator(forward, backward, rules[i].order)) + " ?"
  }

  /** The first n disjuncts. */
  function DisjunctsUpTo(rules: seq<Rule>, n: nat, forward: bool, backward: bool): (ds: seq<string>)
    requires n <= |rules|
    ensures |ds| == n
    ensures forall i :: 0 <= i < n ==> ds[i] == Disjunct(rules, i, forward, backward)
  {
    seq(n, i requires 0 <= i < n => Disjunct(rules, i, forward, backward))
  }

  /** The keyset predicate: one disjunct per rule, joined by " OR ". */
  function CursorSQL(rules: seq<Rule>, forward: bool, backward: bool): string
  {
    Join(DisjunctsUpTo(rules, |rules|, forward, backward), " OR ")
  }

  /** fields[:1] ++ fields[:2] ++ ... ++ fields[:n]. */
  function CursorArgs(fields: seq<Value>, n: nat): seq<Value>
    requires n <= |fields|
  {
    if n == 0 then [] else CursorArgs(fields, n - 1) + fields[..n]
  }

  /** 1 + 2 + ... + n. */
  function Triangle(n: nat): nat
  {
    if n == 0 then 0 else Triangle(n - 1) + n
  }

  lemma {:induction false} TriangleClosedForm(n: nat)
    ensures 2 * Triangle(n) == n * (n + 1)
  {
    if n > 0 { TriangleClosedForm(n - 1); }
  }

  lemma {:induction false} TriangleMonotone(m: nat, n: nat)
    requires m < n
    ensures Triangle(m) < Triangle(n)
  {
    if m < n - 1 { TriangleMonotone(m, n - 1); }
  }

  /** The argument list has n(n+1)/2 entries, and block k of it is fields[:k+1]. */
  lemma {:induction false} CursorArgsShape(fields: seq<Value>, n: nat, k: nat)
    requires n <= |fields| && k < n
    ensures |CursorArgs(fields, n)| == Triangle(n) && 2 * |CursorArgs(fields, n)| == n * (n + 1)
    ensures Triangle(k) < Triangle(k + 1) <= Triangle(n)
    ensures CursorArgs(fields, n)[Triangle(k)..Triangle(k + 1)] == fields[..k + 1]
  {
    CursorArgsLength(fields, n);
    TriangleClosedForm(n);
    if k + 1 < n { TriangleMonotone(k + 1, n); }
    var a := CursorArgs(fields, n);
    if k == n - 1 {
      CursorArgsLength(fields, n - 1);
      assert a[Triangle(k)..Triangle(k + 1)] == fields[..n];
    } else {
      CursorArgsShape(fields, n - 1, k);
      CursorArgsLength(fields, n - 1);
      TriangleMonotone(k + 1, n);
      var b := CursorArgs(fields, n - 1);
      assert a == b + fields[..n];
      if k + 1 < n - 1 { TriangleMonotone(k + 1, n - 1); }
      assert a[Triangle(k)..Triangle(k + 1)] == b[Triangle(k)..Triangle(k + 1)];
    }
  }

  lemma {:induction false} CursorArgsLength(fields: seq<Value>, n: nat)
    requires n <= |fields|
    ensures |CursorArgs(fields, n)| == Triangle(n)
  {
    if n > 0 { CursorArgsLength(fields, n - 1); }
  }

  /** No rule expression contains a placeholder character of its own. */
  predicate NoPlaceholderInExprs(rules: seq<Rule>)
  {
    forall i :: 0 <= i < |rules| ==> '?' !in rules[i].sqlRepr
  }

  lemma {:induction false} EqPrefixPlaceholders(rules: seq<Rule>, i: nat)
    requires i <= |rules| && NoPlaceholderInExprs(rules)
    ensures Count(EqPrefix(rules, i), '?') == i
  {
    if i > 0 {
      EqPrefixPlaceholders(rules, i - 1);
      var p := EqPrefix(rules, i - 1);
      var r := rules[i - 1].sqlRepr;
      assert '?' !in r;
      assert EqPrefix(rules, i) == p + r + " = ? AND ";
      CountConcat(p, r, '?');
      CountConcat(p + r, " = ? AND ", '?');
      CountAbsent(r, '?');
    }
  }

  lemma DisjunctPlaceholders(rules: seq<Rule>, i: nat, forward: bool, backward: bool)
    requires i < |rules| && NoPlaceholderInExprs(rules)
    ensures Count(Disjunct(rules, i, forward, backward), '?') == i + 1
  {
    var r := rules[i].sqlRepr;
    var s := Symbol(Operator(forward, backward, rules[i].order));
    var body := r + " " + s + " ";
    assert '?' !in body by {
      assert s == ">" || s == "<";
      assert '?' !in r;
    }
    EqPrefixPlaceholders(rules, i);
    CountAbsent(body, '?');
    CountConcat(body, "?", '?');
    assert Disjunct(rules, i, forward, backward) == EqPrefix(rules, i) + (body + "?");
    CountConcat(EqPrefix(rules, i), body + "?", '?');
  }

  lemma {:induction false} DisjunctsUpToPlaceholders(rules: seq<Rule>, n: nat, forward: bool, backward: bool)
    requires n <= |rules| && NoPlaceholderInExprs(rules)
    ensures Count(Join(DisjunctsUpTo(rules, n, forward, backward), " OR "), '?') == Triangle(n)
  {
    if n == 1 {
      DisjunctPlaceholders(rules, 0, forward, backward);
      assert DisjunctsUpTo(rules, n, forward, backward) == [Disjunct(rules, 0, forward, backward)];
    } else if n > 1 {
      DisjunctsUpToPlaceholders(rules, n - 1, forward, backward);
      DisjunctPlaceholders(rules, n - 1, forward, backward);
      DisjunctsUpToSnoc(rules, n, forward, backward);
      JoinedPlaceholdersStep(DisjunctsUpTo(rules, n - 1, forward, backward), Disjunct(rules, n - 1, forward, backward));
    }
  }

  /** The first n disjuncts are the first n-1 followed by disjunct n-1. */
  lemma DisjunctsUpToSnoc(rules: seq<Rule>, n: nat, forward: bool, backward: bool)
    requires 0 < n <= |rules|
    ensures DisjunctsUpTo(rules, n, forward, backward)
         == DisjunctsUpTo(rules, n - 1, forward, backward) + [Disjunct(rules, n - 1, forward, backward)]
  {
  }

  lemma JoinedPlaceholdersStep(ds: seq<string>, d: string)
    requires |ds| > 0
    ensures Count(Join(ds + [d], " OR "), '?') == Count(Join(ds, " OR "), '?') + Count(d, '?')
  {
    var sep := " OR ";
    var j := Join(ds, sep);
    JoinSnoc(ds, d, sep);
    CountConcat(j, sep, '?');
    CountConcat(j + sep, d, '?');
    CountAbsent(sep, '?');
  }

  /**
   * When no rule expression contains '?', the predicate has n(n+1)/2
   * placeholders for n rules, and that equals the number of arguments
   * exactly when one field was decoded per rule.
   */
  lemma PlaceholdersMatchArgs(rules: seq<Rule>, fields: seq<Value>, forward: bool, backward: bool)
    requires NoPlaceholderInExprs(rules)
    ensures 2 * Count(CursorSQL(rules, forward, backward), '?') == |rules| * (|rules| + 1)
    ensures Count(CursorSQL(rules, forward, backward), '?') == |CursorArgs(fields, |fields|)| <==> |fields| == |rules|
  {
    DisjunctsUpToPlaceholders(rules, |rules|, forward, backward);
    TriangleClosedForm(|rules|);
    CursorArgsLength(fields, |fields|);
    if |fields| < |rules| { TriangleMonotone(|fields|, |rules|); }
    if |rules| < |fields| { TriangleMonotone(|rules|, |fields|); }
  }

  /**
   * Two keys of mixed order, paged forward: the predicate is
   * `a > ? OR a = ? AND b < ?` with arguments [x, x, y].
   */
  lemma MixedOrderExample(a: string, b: string, x: Value, y: Value)
    ensures CursorSQL([Rule("ID", ASC, a, Nil), Rule("CreatedAt", DESC, b, Nil)], true, false)
      == a + " > ? OR " + a + " = ? AND " + b + " < ?"
    ensures CursorArgs([x, y], 2) == [x, x, y]
  {
    var rules := [Rule("ID", ASC, a, Nil), Rule("CreatedAt", DESC, b, Nil)];
    var d0 := Disjunct(rules, 0, true, false);
    var d1 := Disjunct(rules, 1, true, false);
    assert d0 == a + " > ?" by {
      assert EqPrefix(rules, 0) == "";
      assert " " + Symbol(Gt) + " ?" == " > ?";
    }
    assert d1 == a + " = ? AND " + b + " < ?" by {
      assert EqPrefix(rules, 1) == a + " = ? AND ";
      assert " " + Symbol(Lt) + " ?" == " < ?";
    }
    assert DisjunctsUpTo(rules, 2, true, false) == [d0, d1];
    assert [d0, d1][1..] == [d1];
    assert Join([d0, d1], " OR ") == d0 + " OR " + d1;
    assert a + " > ?" + " OR " == a + " > ? OR ";
    assert CursorArgs([x, y], 1) == [x];
  }

  /* --------------------------------------------------------- WHERE, as terms */

  /** One comparison `expr op ?` of the predicate. */
  datatype Term = Term(expr: string, cmp: Cmp)

  function RenderTerm(t: Term): string
  {
    t.expr + " " + Symbol(t.cmp) + " ?"
  }

  /** A conjunction of terms in SQL text. */
  function RenderConj(ts: seq<Term>): string
  {
    Join(seq(|ts|, k requires 0 <= k < |ts| => RenderTerm(ts[k])), " AND ")
  }

  /** The terms of disjunct i: equality on every earlier key, the strict operator on key i. */
  function Terms(rules: seq<Rule>, i: nat, forward: bool, backward: bool): (ts: seq<Term>)
    requires i < |rules|
    ensures |ts| == i + 1
  {
    seq(i, j requires 0 <= j < i => Term(rules[j].sqlRepr, Eq))
      + [Term(rules[i].sqlRepr, Operator(forward, backward, rules[i].order))]
  }

  /** The text of an equality term. */
  function EqTexts(rules: seq<Rule>, i: nat): (ts: seq<string>)
    requires i <= |rules|
    ensures |ts| == i
    ensures forall j :: 0 <= j < i ==> ts[j] == RenderTerm(Term(rules[j].sqlRepr, Eq))
  {
    seq(i, j requires 0 <= j < i => RenderTerm(Term(rules[j].sqlRepr, Eq)))
  }

  lemma EqTermText(e: string)
    ensures RenderTerm(Term(e, Eq)) == e + " = ?"
  {
    assert " " + Symbol(Eq) + " ?" == " = ?";
  }

  lemma {:induction false} EqPrefixRenders(rules: seq<Rule>, i: nat)
    requires 0 < i <= |rules|
    ensures EqPrefix(rules, i) == Join(EqTexts(rules, i), " AND ") + " AND "
  {
    var e := rules[i - 1].sqlRepr;
    EqTermText(e);
    assert " = ? AND " == " = ?" + " AND ";
    if i == 1 {
      assert EqTexts(rules, i) == [e + " = ?"];
    } else {
      var prev := EqTexts(rules, i - 1);
      assert EqTexts(rules, i) == prev + [e + " = ?"];
      EqPrefixRenders(rules, i - 1);
      JoinSnoc(prev, e + " = ?", " AND ");
    }
  }

  /** Disjunct i, as buildCursorSQLQuery formats it, is the conjunction of its terms. */
  lemma DisjunctRendersTerms(rules: seq<Rule>, i: nat, forward: bool, backward: bool)
    requires i < |rules|
    ensures Disjunct(rules, i, forward, backward) == RenderConj(Terms(rules, i, forward, backward))
  {
    var ts := Terms(rules, i, forward, backward);
    var rs := seq(|ts|, k requires 0 <= k < |ts| => RenderTerm(ts[k]));
    var op := RenderTerm(ts[i]);
    var eqs := EqTexts(rules, i);
    assert rs == eqs + [op];
    assert Disjunct(rules, i, forward, backward) == EqPrefix(rules, i) + op;
    if i == 0 {
      assert rs == [op];
    } else {
      EqPrefixRenders(rules, i);
      JoinSnoc(eqs, op, " AND ");
    }
  }

  /**
   * Whether a condition `x cmp bound` is true, given the database's strict
   * order `lt` on non-NULL values. A comparison with NULL on either side is
   * never true in SQL; since AND is true exactly when every operand is true
   * and OR exactly when some operand is, truth of the whole predicate
   * follows from the truth of its comparisons.
   */
  function Holds(c: Cmp, x: Value, bound: Value, lt: (Value, Value) -> bool): bool
  {
    if x == Nil || bound == Nil then false
    else
      match c
      case Eq => x == bound
      case Gt => lt(bound, x)
      case Lt => lt(x, bound)
  }

  /** A conjunction holds when each term holds with its own argument. */
  predicate HoldsAll(ts: seq<Term>, args: seq<Value>, valueOf: string -> Value, lt: (Value, Value) -> bool)
    requires |ts| == |args|
  {
    forall k :: 0 <= k < |ts| ==> Holds(ts[k].cmp, valueOf(ts[k].expr), args[k], lt)
  }

  /** The number of placeholders in a disjunction of conjunctions. */
  function Arity(ds: seq<seq<Term>>): nat
  {
    if |ds| == 0 then 0 else Arity(ds[..|ds| - 1]) + |ds[|ds| - 1]|
  }

  /**
   * A disjunction holds when some conjunction holds; the arguments are
   * bound to the placeholders left to right.
   */
  predicate HoldsAny(ds: seq<seq<Term>>, args: seq<Value>, valueOf: string -> Value, lt: (Value, Value) -> bool)
    requires |args| == Arity(ds)
  {
    if |ds| == 0 then false
    else
      var k := |args| - |ds[|ds| - 1]|;
      HoldsAny(ds[..|ds| - 1], args[..k], valueOf, lt) || HoldsAll(ds[|ds| - 1], args[k..], valueOf, lt)
  }

  /** The terms of the first n disjuncts. */
  function TermsUpTo(rules: seq<Rule>, n: nat, forward: bool, backward: bool): (ds: seq<seq<Term>>)
    requires n <= |rules|
    ensures |ds| == n
    ensures forall i :: 0 <= i < n ==> ds[i] == Terms(rules, i, forward, backward)
  {
    seq(n, i requires 0 <= i < n => Terms(rules, i, forward, backward))
  }

  lemma {:induction false} TermsUpToArity(rules: seq<Rule>, n: nat, forward: bool, backward: bool)
    requires n <= |rules|
    ensures Arity(TermsUpTo(rules, n, forward, backward)) == Triangle(n)
  {
    if n > 0 {
      assert TermsUpTo(rules, n, forward, backward)[..n - 1] == TermsUpTo(rules, n - 1, forward, backward);
      TermsUpToArity(rules, n - 1, forward, backward);
    }
  }

  /* ------------------------------------------------- the lexicographic order */

  /** The value the row holds for each rule's expression. */
  function RowKeys(rules: seq<Rule>, valueOf: string -> Value): (ks: seq<Value>)
    ensures |ks| == |rules|
  {
    seq(|rules|, i requires 0 <= i < |rules| => valueOf(rules[i].sqlRepr))
  }

  /** The operator of every rule. */
  function Operators(rules: seq<Rule>, forward: bool, backward: bool): (ops: seq<Cmp>)
    ensures |ops| == |rules|
  {
    seq(|rules|, i requires 0 <= i < |rules| => Operator(forward, backward, rules[i].order))
  }

  /**
   * The reference definition: `row` lies strictly beyond `bound` when, at
   * the first key where they differ, the row's value satisfies that key's
   * operator. Equal tuples are not beyond each other, and a NULL key on
   * either side ends the comparison: the row is then not beyond.
   */
  predicate Beyond(row: seq<Value>, bound: seq<Value>, ops: seq<Cmp>, lt: (Value, Value) -> bool)
    requires |row| == |bound| == |ops|
  {
    if |row| == 0 then false
    else if row[0] != Nil && row[0] == bound[0] then Beyond(row[1..], bound[1..], ops[1..], lt)
    else Holds(ops[0], row[0], bound[0], lt)
  }

  /** The tuples agree, without NULLs, before key i and key i decides by its operator. */
  predicate DecidedAt(row: seq<Value>, bound: seq<Value>, ops: seq<Cmp>, lt: (Value, Value) -> bool, i: nat)
    requires |row| == |bound| == |ops| && i < |row|
  {
    (forall j :: 0 <= j < i ==> row[j] != Nil && row[j] == bound[j]) && Holds(ops[i], row[i], bound[i], lt)
  }

  ghost predicate Irreflexive(lt: (Value, Value) -> bool)
  {
    forall x :: !lt(x, x)
  }

  lemma {:induction false} BeyondIffDecided(row: seq<Value>, bound: seq<Value>, ops: seq<Cmp>, lt: (Value, Value) -> bool)
    requires |row| == |bound| == |ops|
    requires Irreflexive(lt)
    requires forall k :: 0 <= k < |ops| ==> ops[k] != Eq
    ensures Beyond(row, bound, ops, lt) <==> exists i :: 0 <= i < |row| && DecidedAt(row, bound, ops, lt, i)
  {
    if |row| > 0 {
      if row[0] != Nil && row[0] == bound[0] {
        BeyondIffDecided(row[1..], bound[1..], ops[1..], lt);
        assert !DecidedAt(row, bound, ops, lt, 0) by {
          assert !lt(row[0], row[0]);
        }
        forall i | 0 < i < |row|
          ensures DecidedAt(row, bound, ops, lt, i) <==> DecidedAt(row[1..], bound[1..], ops[1..], lt, i - 1)
        {
          assert forall j :: 0 < j < i ==> row[1..][j - 1] == row[j] && bound[1..][j - 1] == bound[j];
        }
        if Beyond(row, bound, ops, lt) {
          var j :| 0 <= j < |row| - 1 && DecidedAt(row[1..], bound[1..], ops[1..], lt, j);
          assert DecidedAt(row, bound, ops, lt, j + 1);
        }
      } else {
        assert DecidedAt(row, bound, ops, lt, 0) <==> Holds(ops[0], row[0], bound[0], lt);
        assert !(row[0] != Nil && row[0] == bound[0]);
        forall i | 0 < i < |row| ensures !DecidedAt(row, bound, ops, lt, i) {
        }
      }
    }
  }

  /** Disjunct i holds on the row exactly when the row and the fields are decided at key i. */
  lemma DisjunctHolds(rules: seq<Rule>, fields: seq<Value>, i: nat, forward: bool, backward: bool,
                      valueOf: string -> Value, lt: (Value, Value) -> bool)
    requires |fields| == |rules| && i < |rules|
    ensures HoldsAll(Terms(rules, i, forward, backward), fields[..i + 1], valueOf, lt)
      <==> DecidedAt(RowKeys(rules, valueOf), fields, Operators(rules, forward, backward), lt, i)
  {
    var ts := Terms(rules, i, forward, backward);
    var row := RowKeys(rules, valueOf);
    var ops := Operators(rules, forward, backward);
    if HoldsAll(ts, fields[..i + 1], valueOf, lt) {
      forall j | 0 <= j < i ensures row[j] != Nil && row[j] == fields[j] {
        assert Holds(ts[j].cmp, valueOf(ts[j].expr), fields[..i + 1][j], lt);
      }
      assert Holds(ts[i].cmp, valueOf(ts[i].expr), fields[..i + 1][i], lt);
    }
    if DecidedAt(row, fields, ops, lt, i) {
      forall k | 0 <= k < |ts| ensures Holds(ts[k].cmp, valueOf(ts[k].expr), fields[..i + 1][k], lt) {
        if k < i { assert row[k] != Nil && row[k] == fields[k]; }
      }
    }
  }

  /** Some key up to n decides the comparison. */
  predicate DecidedBefore(row: seq<Value>, bound: seq<Value>, ops: seq<Cmp>, lt: (Value, Value) -> bool, n: nat)
    requires |row| == |bound| == |ops| && n <= |row|
  {
    exists i :: 0 <= i < n && DecidedAt(row, bound, ops, lt, i)
  }

  lemma DecidedBeforeStep(row: seq<Value>, bound: seq<Value>, ops: seq<Cmp>, lt: (Value, Value) -> bool, n: nat)
    requires |row| == |bound| == |ops| && 0 < n <= |row|
    ensures DecidedBefore(row, bound, ops, lt, n) <==> DecidedBefore(row, bound, ops, lt, n - 1) || DecidedAt(row, bound, ops, lt, n - 1)
  {
  }

  lemma CursorArgsSplit(fields: seq<Value>, n: nat)
    requires 0 < n <= |fields|
    ensures |CursorArgs(fields, n - 1)| == Triangle(n - 1) && |CursorArgs(fields, n)| == Triangle(n)
    ensures CursorArgs(fields, n)[..Triangle(n - 1)] == CursorArgs(fields, n - 1)
    ensures CursorArgs(fields, n)[Triangle(n - 1)..] == fields[..n]
  {
    CursorArgsLength(fields, n - 1);
    CursorArgsLength(fields, n);
  }

  lemma HoldsAnyLast(ds: seq<seq<Term>>, args: seq<Value>, valueOf: string -> Value, lt: (Value, Value) -> bool)
    requires |ds| > 0 && |args| == Arity(ds)
    ensures Arity(ds[..|ds| - 1]) == |args| - |ds[|ds| - 1]|
    ensures HoldsAny(ds, args, valueOf, lt) ==
      (HoldsAny(ds[..|ds| - 1], args[..|args| - |ds[|ds| - 1]|], valueOf, lt)
        || HoldsAll(ds[|ds| - 1], args[|args| - |ds[|ds| - 1]|..], valueOf, lt))
  {
  }

  lemma {:induction false} HoldsAnyUpTo(rules: seq<Rule>, fields: seq<Value>, n: nat, forward: bool, backward: bool,
                                       valueOf: string -> Value, lt: (Value, Value) -> bool)
    requires |fields| == |rules| && n <= |rules|
    ensures Arity(TermsUpTo(rules, n, forward, backward)) == |CursorArgs(fields, n)|
    ensures HoldsAny(TermsUpTo(rules, n, forward, backward), CursorArgs(fields, n), valueOf, lt)
      <==> DecidedBefore(RowKeys(rules, valueOf), fields, Operators(rules, forward, backward), lt, n)
  {
    TermsUpToArity(rules, n, forward, backward);
    CursorArgsLength(fields, n);
    if n > 0 {
      var ds := TermsUpTo(rules, n, forward, backward);
      var args := CursorArgs(fields, n);
      assert ds[..n - 1] == TermsUpTo(rules, n - 1, forward, backward);
      assert |ds[n - 1]| == n;
      CursorArgsSplit(fields, n);
      HoldsAnyLast(ds, args, valueOf, lt);
      HoldsAnyUpTo(rules, fields, n - 1, forward, backward, valueOf, lt);
      DisjunctHolds(rules, fields, n - 1, forward, backward, valueOf, lt);
      DecidedBeforeStep(RowKeys(rules, valueOf), fields, Operators(rules, forward, backward), lt, n);
    }
  }

  /**
   * The meaning of the keyset predicate: with one decoded field per rule
   * and the arguments of buildCursorSQLQueryArgs, the predicate holds on a
   * row exactly when the row's key tuple lies strictly beyond the fields,
   * each key compared by its own operator, with SQL's reading of NULL.
   */
  lemma WhereMeansBeyond(rules: seq<Rule>, fields: seq<Value>, forward: bool, backward: bool,
                         valueOf: string -> Value, lt: (Value, Value) -> bool)
    requires |fields| == |rules|
    requires Irreflexive(lt)
    ensures Arity(TermsUpTo(rules, |rules|, forward, backward)) == |CursorArgs(fields, |fields|)|
    ensures HoldsAny(TermsUpTo(rules, |rules|, forward, backward), CursorArgs(fields, |fields|), valueOf, lt)
      == Beyond(RowKeys(rules, valueOf), fields, Operators(rules, forward, backward), lt)
  {
    HoldsAnyUpTo(rules, fields, |rules|, forward, backward, valueOf, lt);
    BeyondIffDecided(RowKeys(rules, valueOf), fields, Operators(rules, forward, backward), lt);
  }

  /**
   * A NULL key, in the cursor's fields or in the row, stops the comparison
   * there: the row is selected exactly when a key before it decides. In
   * particular a NULL at the first key selects no row at all.
   */
  lemma {:induction false} NullKeyCutsOff(rules: seq<Rule>, fields: seq<Value>, k: nat, forward: bool, backward: bool,
                       valueOf: string -> Value, lt: (Value, Value) -> bool)
    requires |fields| == |rules| && k < |rules|
    requires Irreflexive(lt)
    requires fields[k] == Nil || valueOf(rules[k].sqlRepr) == Nil
    ensures Arity(TermsUpTo(rules, |rules|, forward, backward)) == |CursorArgs(fields, |fields|)|
    ensures HoldsAny(TermsUpTo(rules, |rules|, forward, backward), CursorArgs(fields, |fields|), valueOf, lt)
      <==> DecidedBefore(RowKeys(rules, valueOf), fields, Operators(rules, forward, backward), lt, k)
    ensures k == 0 ==> !HoldsAny(TermsUpTo(rules, |rules|, forward, backward), CursorArgs(fields, |fields|), valueOf, lt)
  {
    var row := RowKeys(rules, valueOf);
    var ops := Operators(rules, forward, backward);
    WhereMeansBeyond(rules, fields, forward, backward, valueOf, lt);
    BeyondIffDecided(row, fields, ops, lt);
    assert row[k] == Nil || fields[k] == Nil;
    forall i | k <= i < |row| ensures !DecidedAt(row, fields, ops, lt, i) {
      if i > k {
        assert !(row[k] != Nil && row[k] == fields[k]);
      }
    }
  }
}
