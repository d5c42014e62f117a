/**
 * The paginator of paginator/paginator.go: a `Paginator` object whose
 * setters update its fields, and whose `Paginate` validates the rules,
 * resolves their SQL expressions, decodes the incoming cursor, builds the
 * query (LIMIT n+1, ORDER BY, keyset WHERE), runs it through the query
 * engine, trims the extra row and encodes the outgoing cursor pair.
 *
 * Each method is proved against a function of the paginator's state
 * (a `State` snapshot); the lemmas state what those functions promise.
 */
module Pagination {
  import opened Wrappers
  import opened Types
  import opened Strings
  import opened Keyset

  /* --------------------------------------------------------------- state */

  /** The rules SetKeys builds: one rule per key, every other field at its zero value. */
  function KeyRules(keys: seq<string>): (rules: seq<Rule>)
    ensures |rules| == |keys|
    ensures forall i :: 0 <= i < |keys| ==> rules[i] == Rule(keys[i], Unset, "", Nil)
  {
    seq(|keys|, i requires 0 <= i < |keys| => Rule(keys[i], Unset, "", Nil))
  }

  /** The fields of a paginator, as a value, with what each setter does to them. */
  datatype State = State(cursor: Cursor, rules: seq<Rule>, first: int, last: int, order: Order, invertOrder: bool)
  {
    function SetRules(rs: seq<Rule>): State { this.(rules := rs) }
    function SetKeys(keys: seq<string>): State { this.(rules := KeyRules(keys)) }
    function SetFirst(n: int): State { this.(first := n, last := 0) }
    function SetLast(n: int): State { this.(last := n, first := 0) }
    function SetOrder(o: Order): State { this.(order := o) }
    function SetAfterCursor(c: string): State { this.(cursor := this.cursor.(after := Some(c))) }
    function SetBeforeCursor(c: string): State { this.(cursor := this.cursor.(before := Some(c))) }
    function SetInvert(b: bool): State { this.(invertOrder := b) }

    /** At most one of the two page sizes is non-zero. */
    predicate PageSizeExclusive() { first == 0 || last == 0 }
  }

  /** The state of `&Paginator{}`: every field at its Go zero value. */
  const ZeroState := State(Cursor(None, None), [], 0, 0, Unset, false)

  /** The empty cursor pair returned when no cursor is produced. */
  const NoCursor := Cursor(None, None)

  /**
   * SetFirst and SetLast leave at most one page size non-zero, whatever the
   * state before, and every other setter keeps that property.
   */
  lemma SettersKeepPageSizeExclusive(s: State, n: int, rs: seq<Rule>, keys: seq<string>, o: Order, c: string, b: bool)
    ensures s.SetFirst(n).PageSizeExclusive() && s.SetFirst(n).first == n && s.SetFirst(n).last == 0
    ensures s.SetLast(n).PageSizeExclusive() && s.SetLast(n).last == n && s.SetLast(n).first == 0
    ensures s.PageSizeExclusive() ==>
      s.SetRules(rs).PageSizeExclusive() && s.SetKeys(keys).PageSizeExclusive() && s.SetOrder(o).PageSizeExclusive()
      && s.SetAfterCursor(c).PageSizeExclusive() && s.SetBeforeCursor(c).PageSizeExclusive() && s.SetInvert(b).PageSizeExclusive()
  {
  }

  /* ----------------------------------------------------------- direction */

  /**
   * isForward: no before cursor, or an after cursor. It fails only for a
   * cursor with a before and no after value.
   */
  predicate IsForward(c: Cursor)
    ensures IsForward(c) <==> !(c.after.None? && c.before.Some?)
  {
    c.before.None? || c.after.Some?
  }

  /**
   * isBackward: a before cursor. Every cursor is forward or backward, and
   * a backward cursor is also forward exactly when it has an after value.
   */
  predicate IsBackward(c: Cursor)
    ensures !IsBackward(c) ==> IsForward(c)
    ensures IsBackward(c) ==> (IsForward(c) <==> c.after.Some?)
  {
    c.before.Some?
  }

  /** Some direction always holds; both hold exactly when both cursors are set. */
  lemma Direction(c: Cursor)
    ensures IsForward(c) || IsBackward(c)
    ensures IsForward(c) && IsBackward(c) <==> c.after.Some? && c.before.Some?
    ensures !IsForward(c) <==> c.after.None? && c.before.Some?
  {
  }

  /**
   * The keyset operator of each rule, by which cursors are set: with no
   * before cursor, ">" exactly on ASC keys; with only a before cursor, ">"
   * exactly on DESC keys; with both cursors, ">" on ASC and DESC keys alike.
   */
  lemma OperatorsByCursor(c: Cursor, rules: seq<Rule>, i: nat)
    requires i < |rules|
    ensures c.before.None? ==>
      (Operators(rules, IsForward(c), IsBackward(c))[i] == Gt <==> rules[i].order == ASC)
    ensures c.after.None? && c.before.Some? ==>
      (Operators(rules, IsForward(c), IsBackward(c))[i] == Gt <==> rules[i].order == DESC)
    ensures c.after.Some? && c.before.Some? ==>
      (Operators(rules, IsForward(c), IsBackward(c))[i] == Gt <==> ValidOrder(rules[i].order))
    ensures Operators(rules, IsForward(c), IsBackward(c))[i] != Eq
  {
  }

  /**
   * ORDER BY and WHERE are chosen independently: with `last > 0` and only
   * an after cursor, an ASC key is sorted DESC while the predicate still
   * asks for values greater than the cursor's.
   */
  lemma LastWithAfterCursor(rules: seq<Rule>, last: int, a: string, i: nat)
    requires last > 0 && i < |rules| && rules[i].order == ASC
    ensures OrderEntries(rules, last)[i] == rules[i].sqlRepr + " DESC"
    ensures Operators(rules, IsForward(Cursor(Some(a), None)), IsBackward(Cursor(Some(a), None)))[i] == Gt
  {
  }

  /* ------------------------------------------------------------ collaborators */

  /** The query the paginator hands to the query engine. */
  datatype Where = Where(sql: string, args: seq<Value>)
  datatype Query = Query(limit: Option<int>, orderBy: string, where: Option<Where>)

  /** What the query engine reports, and what it left in the destination. */
  datatype Found = Found(error: Option<Error>, rows: seq<Row>)

  /**
   * Everything the paginator consults outside its own fields: the table
   * name gorm derives for the destination type, the struct tag of each
   * field, strcase.ToSnake, `%v` rendering, Rule.validate against the
   * destination type, the cursor decoder and encoder, and the query engine.
   */
  datatype Env = Env(
    table: string,
    tagOf: string -> string,
    toSnake: string -> string,
    render: Value -> string,
    ruleError: Rule -> Option<Error>,
    decode: (seq<string>, string) -> Option<seq<Value>>,
    encode: (seq<string>, Row) -> Result<string, Error>,
    find: Query -> Found)

  /* ---------------------------------------------------------------- keys */

  /** getKeys: the rules' keys, in rule order. */
  function GetKeys(rules: seq<Rule>): (keys: seq<string>)
    ensures |keys| == |rules|
    ensures forall i :: 0 <= i < |rules| ==> keys[i] == rules[i].key
  {
    seq(|rules|, i requires 0 <= i < |rules| => rules[i].key)
  }

  /* ---------------------------------------------------------- validation */

  /** The first error Rule.validate reports, in rule order. */
  function FirstRuleError(rules: seq<Rule>, ruleError: Rule -> Option<Error>): Option<Error>
  {
    if |rules| == 0 then None
    else if ruleError(rules[0]).Some? then ruleError(rules[0])
    else FirstRuleError(rules[1..], ruleError)
  }

  /** validate: no rule, then an invalid order, then the first invalid rule. */
  function Validation(s: State, ruleError: Rule -> Option<Error>): Option<Error>
  {
    if |s.rules| == 0 then Some(ErrNoRule)
    else if !ValidOrder(s.order) then Some(ErrInvalidOrder)
    else FirstRuleError(s.rules, ruleError)
  }

  lemma {:induction false} FirstRuleErrorNone(rules: seq<Rule>, ruleError: Rule -> Option<Error>)
    ensures FirstRuleError(rules, ruleError).None? <==> forall i :: 0 <= i < |rules| ==> ruleError(rules[i]).None?
  {
    if |rules| > 0 {
      FirstRuleErrorNone(rules[1..], ruleError);
      assert forall i :: 1 <= i < |rules| ==> rules[i] == rules[1..][i - 1];
    }
  }

  lemma {:induction false} FirstRuleErrorIsReported(rules: seq<Rule>, ruleError: Rule -> Option<Error>)
    ensures FirstRuleError(rules, ruleError).Some? ==>
      exists i :: 0 <= i < |rules| && FirstRuleError(rules, ruleError) == ruleError(rules[i])
        && forall j :: 0 <= j < i ==> ruleError(rules[j]).None?
  {
    if |rules| > 0 && ruleError(rules[0]).None? {
      FirstRuleErrorIsReported(rules[1..], ruleError);
      if FirstRuleError(rules, ruleError).Some? {
        var i :| 0 <= i < |rules[1..]| && FirstRuleError(rules[1..], ruleError) == ruleError(rules[1..][i])
          && forall j :: 0 <= j < i ==> ruleError(rules[1..][j]).None?;
        assert forall j :: 1 <= j < i + 1 ==> rules[j] == rules[1..][j - 1];
        assert FirstRuleError(rules, ruleError) == ruleError(rules[i + 1]);
      }
    }
  }

  /**
   * Validation passes exactly when there is a rule, the order is ASC or
   * DESC and every rule is accepted; with no rule it is ErrNoRule whatever
   * the order and the rules' own checks; an error about a rule is the one
   * reported for the first rejected rule.
   */
  lemma ValidationCharacterised(s: State, ruleError: Rule -> Option<Error>)
    ensures Validation(s, ruleError).None? <==>
      |s.rules| > 0 && ValidOrder(s.order) && forall i :: 0 <= i < |s.rules| ==> ruleError(s.rules[i]).None?
    ensures |s.rules| == 0 ==> Validation(s, ruleError) == Some(ErrNoRule)
    ensures |s.rules| > 0 && !ValidOrder(s.order) ==> Validation(s, ruleError) == Some(ErrInvalidOrder)
    ensures |s.rules| > 0 && ValidOrder(s.order) && Validation(s, ruleError).Some? ==>
      exists i :: 0 <= i < |s.rules| && Validation(s, ruleError) == ruleError(s.rules[i])
        && forall j :: 0 <= j < i ==> ruleError(s.rules[j]).None?
  {
    FirstRuleErrorNone(s.rules, ruleError);
    FirstRuleErrorIsReported(s.rules, ruleError);
  }

  /* -------------------------------------------------------------- setup */

  /** The ";"-separated options of a `gorm:"..."` tag, in order; the first `column:` one wins. */
  function ColumnInOptions(opts: seq<string>): Option<string>
  {
    if |opts| == 0 then None
    else if "column:" <= opts[0] then Some(opts[0][|"column:"|..])
    else ColumnInOptions(opts[1..])
  }

  /** The column one tag names: for a `gorm:` tag, the first `column:` option among its options. */
  function TagColumn(tag: string): Option<string>
  {
    if "gorm:" <= tag then ColumnInOptions(Split(Trim(tag[|"gorm:"|..], '"'), ';')) else None
  }

  /** The space-separated tags of a field; the first tag naming a column wins. */
  function ColumnInTags(tags: seq<string>): Option<string>
  {
    if |tags| == 0 then None
    else if TagColumn(tags[0]).Some? then TagColumn(tags[0])
    else ColumnInTags(tags[1..])
  }

  /** Option k is the first `column:` option. */
  predicate FirstColumnOption(opts: seq<string>, k: int)
  {
    0 <= k < |opts| && "column:" <= opts[k] && forall j :: 0 <= j < k ==> !("column:" <= opts[j])
  }

  /** Tag k is the first tag naming a column. */
  predicate FirstColumnTag(tags: seq<string>, k: int)
  {
    0 <= k < |tags| && TagColumn(tags[k]).Some? && forall j :: 0 <= j < k ==> TagColumn(tags[j]).None?
  }

  /** No option is a `column:` option exactly when none is found; otherwise the first one is. */
  lemma {:induction false} ColumnInOptionsFirst(opts: seq<string>)
    ensures ColumnInOptions(opts).None? <==> forall k :: 0 <= k < |opts| ==> !("column:" <= opts[k])
    ensures forall k :: FirstColumnOption(opts, k) ==> ColumnInOptions(opts) == Some(opts[k][|"column:"|..])
  {
    if |opts| > 0 {
      ColumnInOptionsFirst(opts[1..]);
      assert forall k :: 0 < k < |opts| ==> opts[1..][k - 1] == opts[k];
      forall k | FirstColumnOption(opts, k) ensures ColumnInOptions(opts) == Some(opts[k][|"column:"|..]) {
        if k > 0 {
          assert FirstColumnOption(opts[1..], k - 1);
        }
      }
    }
  }

  /** No tag names a column exactly when none is found; otherwise the first one is. */
  lemma {:induction false} ColumnInTagsFirst(tags: seq<string>)
    ensures ColumnInTags(tags).None? <==> forall k :: 0 <= k < |tags| ==> TagColumn(tags[k]).None?
    ensures forall k :: FirstColumnTag(tags, k) ==> ColumnInTags(tags) == TagColumn(tags[k])
  {
    if |tags| > 0 {
      ColumnInTagsFirst(tags[1..]);
      assert forall k :: 0 < k < |tags| ==> tags[1..][k - 1] == tags[k];
      forall k | FirstColumnTag(tags, k) ensures ColumnInTags(tags) == TagColumn(tags[k]) {
        if k > 0 {
          assert FirstColumnTag(tags[1..], k - 1);
        }
      }
    }
  }

  /**
   * parseSQLKey: among the field's space-separated tags, the first `gorm:`
   * tag with a `column:` option gives the column; with no such tag, the
   * snake-case field name.
   */
  function ParseSQLKey(tag: string, key: string, toSnake: string -> string): string
  {
    match ColumnInTags(Split(tag, ' '))
    case Some(column) => column
    case None => toSnake(key)
  }

  /**
   * The column parseSQLKey finds: with no tag naming a column, the
   * snake-case name; otherwise the column of the first tag that names one.
   */
  lemma ParseSQLKeyFirst(tag: string, key: string, toSnake: string -> string)
    ensures (forall k :: 0 <= k < |Split(tag, ' ')| ==> TagColumn(Split(tag, ' ')[k]).None?) ==>
      ParseSQLKey(tag, key, toSnake) == toSnake(key)
    ensures forall k :: FirstColumnTag(Split(tag, ' '), k) ==> ParseSQLKey(tag, key, toSnake) == TagColumn(Split(tag, ' ')[k]).value
  {
    ColumnInTagsFirst(Split(tag, ' '));
  }

  /** The options of the tag `gorm:"inner"`, with no quote inside, are those of `inner`. */
  lemma QuotedGormTag(inner: string)
    requires '"' !in inner
    ensures TagColumn("gorm:" + (['"'] + inner + ['"'])) == ColumnInOptions(Split(inner, ';'))
  {
    var t := "gorm:" + (['"'] + inner + ['"']);
    assert "gorm:" <= t;
    assert t[|"gorm:"|..] == ['"'] + inner + ['"'];
    TrimFramed(inner, '"');
  }

  /**
   * A lone `gorm:"column:x"` or `gorm:"column:x;more"` tag, the column
   * option first, names the column x.
   */
  lemma ParseSQLKeyColumnFirst(column: string, rest: string, key: string, toSnake: string -> string)
    requires ' ' !in column && ';' !in column && '"' !in column
    requires ' ' !in rest && '"' !in rest && (rest == "" || rest[0] == ';')
    ensures ParseSQLKey("gorm:\"column:" + column + rest + "\"", key, toSnake) == column
  {
    var inner := "column:" + column + rest;
    var t := "gorm:" + (['"'] + inner + ['"']);
    assert "gorm:\"column:" + column + rest + "\"" == t;
    ColumnFirstTag(column, rest);
    CharNotInConcat("column:", column, ' ');
    CharNotInConcat("column:" + column, rest, ' ');
    CharsOfFramedTag(inner);
    LoneTag(t, key, toSnake);
  }

  /** The tag `gorm:"column:x;more"` names the column x. */
  lemma ColumnFirstTag(column: string, rest: string)
    requires ';' !in column && '"' !in column
    requires '"' !in rest && (rest == "" || rest[0] == ';')
    ensures TagColumn("gorm:" + (['"'] + ("column:" + column + rest) + ['"'])) == Some(column)
  {
    CharNotInConcat("column:", column, '"');
    CharNotInConcat("column:" + column, rest, '"');
    QuotedGormTag("column:" + column + rest);
    ColumnOptionFirst(column, rest);
  }

  /** The options `column:x` or `column:x;more` name the column x. */
  lemma ColumnOptionFirst(column: string, rest: string)
    requires ';' !in column && (rest == "" || rest[0] == ';')
    ensures ColumnInOptions(Split("column:" + column + rest, ';')) == Some(column)
  {
    var option := "column:" + column;
    CharNotInConcat("column:", column, ';');
    if rest == "" {
      assert option + rest == option;
      SplitNoSeparator(option, ';');
    } else {
      assert option + rest == option + [';'] + rest[1..];
      SplitAfterPiece(option, rest[1..], ';');
    }
    assert option[|"column:"|..] == column;
  }

  /** A tag list without spaces is a single tag. */
  lemma LoneTag(t: string, key: string, toSnake: string -> string)
    requires ' ' !in t
    ensures ParseSQLKey(t, key, toSnake) == if TagColumn(t).Some? then TagColumn(t).value else toSnake(key)
  {
    SplitNoSeparator(t, ' ');
    ParseSQLKeyFirst(t, key, toSnake);
    if TagColumn(t).Some? {
      assert FirstColumnTag([t], 0);
    }
  }

  /** A lone `gorm:"..."` tag without any `column:` option falls back to the snake-case name. */
  lemma ParseSQLKeyGormWithoutColumn(inner: string, key: string, toSnake: string -> string)
    requires ' ' !in inner && '"' !in inner
    requires forall k :: 0 <= k < |Split(inner, ';')| ==> !("column:" <= Split(inner, ';')[k])
    ensures ParseSQLKey("gorm:\"" + inner + "\"", key, toSnake) == toSnake(key)
  {
    var t := "gorm:" + (['"'] + inner + ['"']);
    assert "gorm:\"" + inner + "\"" == t;
    QuotedGormTag(inner);
    ColumnInOptionsFirst(Split(inner, ';'));
    CharsOfFramedTag(inner);
    LoneTag(t, key, toSnake);
  }

  /** A character in neither part is not in their concatenation. */
  lemma CharNotInConcat(a: string, b: string, x: char)
    requires x !in a && x !in b
    ensures x !in a + b
  {
    forall i | 0 <= i < |a + b| ensures (a + b)[i] != x {
      if i < |a| { assert (a + b)[i] == a[i]; } else { assert (a + b)[i] == b[i - |a|]; }
    }
  }

  /** `gorm:"inner"` holds a space only if `inner` does. */
  lemma CharsOfFramedTag(inner: string)
    requires ' ' !in inner
    ensures ' ' !in "gorm:" + (['"'] + inner + ['"'])
  {
    CharNotInConcat(['"'], inner, ' ');
    CharNotInConcat(['"'] + inner, ['"'], ' ');
    CharNotInConcat("gorm:", ['"'] + inner + ['"'], ' ');
  }

  /**
   * The tag shape of the example in parseSQLKey's comment,
   * `gorm:"type:...;column:x"`, after some other tag, yields the column `x`.
   */
  lemma ParseSQLKeyColumn(other: string, opt: string, column: string, key: string, toSnake: string -> string)
    requires ' ' !in other && !("gorm:" <= other)
    requires ' ' !in opt && ';' !in opt && '"' !in opt && !("column:" <= opt)
    requires ' ' !in column && ';' !in column && '"' !in column
    ensures ParseSQLKey(other + " gorm:\"" + opt + ";column:" + column + "\"", key, toSnake) == column
  {
    var gormTag := GormTag(opt, column);
    var tag := other + " gorm:\"" + opt + ";column:" + column + "\"";
    assert tag == other + [' '] + gormTag;
    GormTagColumn(opt, column);
    GormTagHasNoSpace(opt, column);
    SplitPair(other, gormTag, ' ');
    ParseSQLKeyFirst(tag, key, toSnake);
    assert TagColumn(other) == None;
    assert FirstColumnTag([other, gormTag], 1);
  }

  /** The tag `gorm:"opt;column:x"`. */
  function GormTag(opt: string, column: string): string
  {
    "gorm:" + (['"'] + (opt + [';'] + ("column:" + column)) + ['"'])
  }

  lemma GormTagHasNoSpace(opt: string, column: string)
    requires ' ' !in opt && ' ' !in column
    ensures ' ' !in GormTag(opt, column)
  {
    CharNotInConcat("column:", column, ' ');
    CharNotInConcat(opt, [';'], ' ');
    CharNotInConcat(opt + [';'], "column:" + column, ' ');
    CharsOfFramedTag(opt + [';'] + ("column:" + column));
  }

  /** The options of `gorm:"opt;column:x"` name the column x. */
  lemma GormTagColumn(opt: string, column: string)
    requires ';' !in opt && '"' !in opt && !("column:" <= opt)
    requires ';' !in column && '"' !in column
    ensures TagColumn(GormTag(opt, column)) == Some(column)
  {
    var option := "column:" + column;
    var inner := opt + [';'] + option;
    CharNotInConcat("column:", column, '"');
    CharNotInConcat(opt, [';'], '"');
    CharNotInConcat(opt + [';'], option, '"');
    QuotedGormTag(inner);
    ColumnAfterOption(opt, column);
  }

  /** The options `opt;column:x`, `opt` no column option, name the column x. */
  lemma ColumnAfterOption(opt: string, column: string)
    requires ';' !in opt && !("column:" <= opt) && ';' !in column
    ensures ColumnInOptions(Split(opt + [';'] + ("column:" + column), ';')) == Some(column)
  {
    var option := "column:" + column;
    CharNotInConcat("column:", column, ';');
    SplitPair(opt, option, ';');
    assert "column:" <= option && option[|"column:"|..] == column;
    assert [opt, option][1..] == [option];
  }

  /** A field whose tag holds no ':' at all falls back to the snake-case name. */
  lemma ParseSQLKeyFallback(tag: string, key: string, toSnake: string -> string)
    requires ':' !in tag
    ensures ParseSQLKey(tag, key, toSnake) == toSnake(key)
  {
    var tags := Split(tag, ' ');
    SplitKeepsCharacters(tag, ' ', ':');
    NoGormTag(tags);
  }

  lemma {:induction false} SplitKeepsCharacters(s: string, c: char, x: char)
    requires x !in s
    ensures forall i :: 0 <= i < |Split(s, c)| ==> x !in Split(s, c)[i]
    decreases |s|
  {
    if |s| > 0 {
      assert x !in s[1..] by {
        forall k | 0 <= k < |s[1..]| ensures s[1..][k] != x { assert s[1..][k] == s[k + 1]; }
      }
      SplitKeepsCharacters(s[1..], c, x);
    }
  }

  lemma {:induction false} NoGormTag(tags: seq<string>)
    requires forall i :: 0 <= i < |tags| ==> ':' !in tags[i]
    ensures ColumnInTags(tags) == None
  {
    if |tags| > 0 {
      assert !("gorm:" <= tags[0]) by {
        assert "gorm:"[4] == ':';
        if |tags[0]| >= 5 { assert tags[0][4] in tags[0]; }
      }
      NoGormTag(tags[1..]);
    }
  }

  /**
   * The rule after setup: an empty SQL expression becomes `table.column`;
   * a NULL replacement wraps the expression in COALESCE; an unset order
   * takes the paginator's order.
   */
  function SetupRule(r: Rule, order: Order, env: Env): (s: Rule)
    ensures s.key == r.key && s.nullReplacement == r.nullReplacement
    ensures s.sqlRepr != ""
    ensures r.sqlRepr != "" && r.nullReplacement == Nil ==> s.sqlRepr == r.sqlRepr
    ensures r.sqlRepr == "" && r.nullReplacement == Nil ==>
      s.sqlRepr == env.table + "." + ParseSQLKey(env.tagOf(r.key), r.key, env.toSnake)
    ensures r.nullReplacement != Nil ==> "COALESCE(" <= s.sqlRepr && |s.sqlRepr| > |r.sqlRepr|
    ensures r.nullReplacement != Nil ==>
      s.sqlRepr == "COALESCE(" + (if r.sqlRepr == "" then env.table + "." + ParseSQLKey(env.tagOf(r.key), r.key, env.toSnake) else r.sqlRepr)
                   + ", '" + env.render(r.nullReplacement) + "')"
    ensures s.order == (if r.order == Unset then order else r.order)
  {
    var repr := if r.sqlRepr == "" then env.table + "." + ParseSQLKey(env.tagOf(r.key), r.key, env.toSnake) else r.sqlRepr;
    var wrapped := if r.nullReplacement != Nil then "COALESCE(" + repr + ", '" + env.render(r.nullReplacement) + "')" else repr;
    assert |repr| >= |r.sqlRepr| && repr != "";
    assert r.nullReplacement != Nil ==> wrapped == "COALESCE(" + (repr + ", '" + env.render(r.nullReplacement) + "')");
    r.(sqlRepr := wrapped, order := if r.order == Unset then order else r.order)
  }

  function SetupRules(rules: seq<Rule>, order: Order, env: Env): (rs: seq<Rule>)
    ensures |rs| == |rules|
    ensures forall i :: 0 <= i < |rules| ==> rs[i] == SetupRule(rules[i], order, env)
  {
    seq(|rules|, i requires 0 <= i < |rules| => SetupRule(rules[i], order, env))
  }

  /**
   * After setup every rule keeps its key and NULL replacement, has a
   * non-empty SQL expression, and has the paginator's order when it had
   * none; with a valid paginator order, no rule's order is left unset.
   */
  lemma SetupResolves(rules: seq<Rule>, order: Order, env: Env, i: nat)
    requires i < |rules|
    ensures SetupRules(rules, order, env)[i].key == rules[i].key
    ensures SetupRules(rules, order, env)[i].nullReplacement == rules[i].nullReplacement
    ensures SetupRules(rules, order, env)[i].sqlRepr != ""
    ensures rules[i].sqlRepr != "" && rules[i].nullReplacement == Nil ==> SetupRules(rules, order, env)[i].sqlRepr == rules[i].sqlRepr
    ensures rules[i].nullReplacement != Nil ==> "COALESCE(" <= SetupRules(rules, order, env)[i].sqlRepr
    ensures rules[i].nullReplacement != Nil ==>
      SetupRules(rules, order, env)[i].sqlRepr
        == "COALESCE(" + (if rules[i].sqlRepr == "" then env.table + "." + ParseSQLKey(env.tagOf(rules[i].key), rules[i].key, env.toSnake)
                          else rules[i].sqlRepr)
           + ", '" + env.render(rules[i].nullReplacement) + "')"
    ensures SetupRules(rules, order, env)[i].order == (if rules[i].order == Unset then order else rules[i].order)
    ensures ValidOrder(order) ==> SetupRules(rules, order, env)[i].order != Unset
  {
  }

  /** Setup leaves the keys alone, so the cursor decoder and encoder see the same keys before and after it. */
  lemma SetupKeepsKeys(rules: seq<Rule>, order: Order, env: Env)
    ensures GetKeys(SetupRules(rules, order, env)) == GetKeys(rules)
  {
    assert forall i :: 0 <= i < |rules| ==> GetKeys(SetupRules(rules, order, env))[i] == GetKeys(rules)[i];
  }

  /**
   * Setting up a rule a second time changes nothing exactly when the rule
   * has no NULL replacement: otherwise its expression is wrapped once more,
   * so a paginator reused for a second Paginate call nests COALESCE.
   */
  lemma SetupTwice(r: Rule, order: Order, env: Env)
    ensures SetupRule(SetupRule(r, order, env), order, env) == SetupRule(r, order, env) <==> r.nullReplacement == Nil
  {
  }

  /* -------------------------------------------------------------- decoding */

  /** The cursor string decodeCursor reads: After when paging forward with one, else Before when paging backward. */
  function CursorSource(c: Cursor): Option<string>
  {
    if IsForward(c) && c.after.Some? then Some(c.after.value)
    else if IsBackward(c) then Some(c.before.value)
    else None
  }

  /** After wins whenever it is set; otherwise Before is read; with neither nothing is read. */
  lemma CursorSourceChoice(c: Cursor)
    ensures CursorSource(c) == if c.after.Some? then c.after else c.before
  {
  }

  /** Whether some nil field sits where there is no rule to take its replacement from. */
  predicate NilBeyondRules(fields: seq<Value>, rules: seq<Rule>)
  {
    exists i :: |rules| <= i < |fields| && fields[i] == Nil
  }

  /** The nil fields replaced by their rules' NULL replacement (a Go panic when a rule is missing). */
  function ReplaceNulls(fields: seq<Value>, rules: seq<Rule>): (r: Result<seq<Value>, Error>)
    ensures r.Failure? <==> NilBeyondRules(fields, rules)
    ensures r.Failure? ==> r.error == IndexOutOfRange
    ensures r.Success? ==> |r.value| == |fields|
    ensures r.Success? ==> forall i :: 0 <= i < |fields| && fields[i] == Nil ==> r.value[i] == rules[i].nullReplacement
    ensures r.Success? ==> forall i :: 0 <= i < |fields| && fields[i] != Nil ==> r.value[i] == fields[i]
  {
    if NilBeyondRules(fields, rules) then Failure(IndexOutOfRange)
    else Success(seq(|fields|, i requires 0 <= i < |fields| && (fields[i] == Nil ==> i < |rules|) =>
                       if fields[i] == Nil then rules[i].nullReplacement else fields[i]))
  }

  /** decodeCursor, as a function of the paginator's state. */
  function DecodeSpec(s: State, decode: (seq<string>, string) -> Option<seq<Value>>): Result<seq<Value>, Error>
  {
    match CursorSource(s.cursor)
    case None => Success([])
    case Some(text) =>
      match decode(GetKeys(s.rules), text)
      case None => Failure(ErrInvalidCursor)
      case Some(fields) => ReplaceNulls(fields, s.rules)
  }

  /**
   * The decoded fields: none without a cursor to read; ErrInvalidCursor
   * when the decoder fails on the chosen string; otherwise the decoder's
   * fields with each nil replaced by its rule's NULL replacement.
   */
  lemma DecodeOutcomes(s: State, decode: (seq<string>, string) -> Option<seq<Value>>)
    ensures s.cursor.after.None? && s.cursor.before.None? ==> DecodeSpec(s, decode) == Success([])
    ensures CursorSource(s.cursor).Some? && decode(GetKeys(s.rules), CursorSource(s.cursor).value).None? ==>
      DecodeSpec(s, decode) == Failure(ErrInvalidCursor)
    ensures CursorSource(s.cursor).Some? && decode(GetKeys(s.rules), CursorSource(s.cursor).value).Some? ==>
      DecodeSpec(s, decode) == ReplaceNulls(decode(GetKeys(s.rules), CursorSource(s.cursor).value).value, s.rules)
  {
  }

  /* ------------------------------------------------------------ the query */

  /** appendPagingQuery, as a function of the state and the decoded fields. */
  function PagingQuery(s: State, fields: seq<Value>): (q: Query)
    ensures q.where.Some? <==> |fields| > 0
    ensures s.first > 0 && s.last <= 0 ==> q.limit == Some(s.first + 1)
    ensures s.last > 0 ==> q.limit == Some(s.last + 1)
    ensures s.first <= 0 && s.last <= 0 ==> q.limit.None?
    ensures q.where.Some? && |fields| == |s.rules| && NoPlaceholderInExprs(s.rules) ==>
      Count(q.where.value.sql, '?') == |q.where.value.args|
  {
    var limit := if s.last > 0 then Some(s.last + 1) else if s.first > 0 then Some(s.first + 1) else None;
    var where := if |fields| > 0 then
      Some(Where(CursorSQL(s.rules, IsForward(s.cursor), IsBackward(s.cursor)), CursorArgs(fields, |fields|)))
    else None;
    var q := Query(limit, OrderSQL(s.rules, s.last), where);
    if |fields| == |s.rules| && NoPlaceholderInExprs(s.rules) then
      PlaceholdersMatchArgs(s.rules, fields, IsForward(s.cursor), IsBackward(s.cursor));
      q
    else
      q
  }

  /* ------------------------------------------------------------ trimming */

  /** The page kept from the fetched rows, and whether an extra row was dropped. */
  datatype Window = Window(rows: seq<Row>, hasMore: bool)

  /** The trimming of Paginate: the first `first` rows, or the rows [len-last-1, len-1). */
  function PageWindow(elems: seq<Row>, first: int, last: int): (w: Window)
    ensures w.hasMore <==> (first > 0 && |elems| > first) || (first <= 0 && last > 0 && |elems| > last)
    ensures !w.hasMore ==> w.rows == elems
    ensures w.hasMore && first > 0 ==> w.rows == elems[..first]
    ensures w.hasMore && first <= 0 ==> |w.rows| == last && w.rows == elems[|elems| - last - 1..|elems| - 1]
  {
    if first > 0 then
      if |elems| > first then Window(elems[..first], true) else Window(elems, false)
    else if last > 0 then
      if |elems| > last then Window(elems[|elems| - last - 1..|elems| - 1], true) else Window(elems, false)
    else Window(elems, false)
  }

  /**
   * When the engine honours LIMIT n+1, either trimming keeps the first
   * min(len, n) fetched rows: the backward formula drops the single extra
   * last row, as the forward one does.
   */
  lemma TrimWithinLimit(elems: seq<Row>, first: int, last: int)
    requires first == 0 || last == 0
    requires first > 0 ==> |elems| <= first + 1
    requires last > 0 ==> |elems| <= last + 1
    ensures first > 0 ==> PageWindow(elems, first, last).rows == elems[..if |elems| < first then |elems| else first]
    ensures last > 0 ==> PageWindow(elems, first, last).rows == elems[..if |elems| < last then |elems| else last]
    ensures |PageWindow(elems, first, last).rows| > 0 <==> |elems| > 0
  {
  }

  /**
   * Given more rows than LIMIT asks for, the backward formula drops the
   * first len-last-1 rows and the last one, where the forward one keeps a
   * prefix: of distinct rows, neither the first nor the last fetched is on
   * the page.
   */
  lemma BackwardTrimBeyondLimit(elems: seq<Row>, last: int, i: nat)
    requires last > 0 && |elems| > last + 1 && i < last
    ensures PageWindow(elems, 0, last).rows[i] == elems[|elems| - last - 1 + i]
    ensures (forall j, k :: 0 <= j < k < |elems| ==> elems[j] != elems[k]) ==>
      elems[0] !in PageWindow(elems, 0, last).rows && elems[|elems| - 1] !in PageWindow(elems, 0, last).rows
  {
    var rows := PageWindow(elems, 0, last).rows;
    var lo := |elems| - last - 1;
    if forall j, k :: 0 <= j < k < |elems| ==> elems[j] != elems[k] {
      forall k | 0 <= k < |rows| ensures rows[k] != elems[0] && rows[k] != elems[|elems| - 1] {
        assert rows[k] == elems[lo + k] && 0 < lo + k < |elems| - 1;
      }
    }
  }

  /* -------------------------------------------------------------- cursor out */

  /** encodeCursor: After encodes the last row, Before the first; an encoder error ends it. */
  function EncodeSpec(keys: seq<string>, elems: seq<Row>, encode: (seq<string>, Row) -> Result<string, Error>): (r: Result<Cursor, Error>)
    requires |elems| > 0
    ensures r.Success? <==> encode(keys, elems[|elems| - 1]).Success? && encode(keys, elems[0]).Success?
    ensures r.Success? ==> r.value == Cursor(Some(encode(keys, elems[|elems| - 1]).value), Some(encode(keys, elems[0]).value))
    ensures r.Failure? ==> r.error == (if encode(keys, elems[|elems| - 1]).Failure? then encode(keys, elems[|elems| - 1]).error
                                      else encode(keys, elems[0]).error)
  {
    match encode(keys, elems[|elems| - 1])
    case Failure(e) => Failure(e)
    case Success(after) =>
      match encode(keys, elems[0])
      case Failure(e) => Failure(e)
      case Success(before) => Success(Cursor(Some(after), Some(before)))
  }

  /* ------------------------------------------------------------ paginate */

  /**
   * What Paginate returns: the query it ran (None when it returned first),
   * the query engine's error, the destination's rows afterwards, the cursor
   * pair and the error it returns.
   */
  datatype Outcome = Outcome(query: Option<Query>, dbError: Option<Error>, dest: seq<Row>, cursor: Cursor, err: Option<Error>)

  /** The rules after Paginate: set up when validation passed, untouched otherwise. */
  function PaginateState(s: State, env: Env): State
  {
    if Validation(s, env.ruleError).Some? then s else s.(rules := SetupRules(s.rules, s.order, env))
  }

  /** Paginate, as a function of the state before the call. */
  function PaginateOutcome(s: State, env: Env, dest: seq<Row>): Outcome
  {
    match Validation(s, env.ruleError)
    case Some(e) => Outcome(None, None, dest, NoCursor, Some(e))
    case None =>
      var ready := PaginateState(s, env);
      match DecodeSpec(ready, env.decode)
      case Failure(e) => Outcome(None, None, dest, NoCursor, Some(e))
      case Success(fields) =>
        var q := PagingQuery(ready, fields);
        var found := env.find(q);
        if found.error.Some? then Outcome(Some(q), found.error, found.rows, NoCursor, None)
        else if |found.rows| == 0 then Outcome(Some(q), None, found.rows, NoCursor, None)
        else
          var w := PageWindow(found.rows, ready.first, ready.last);
          match EncodeSpec(GetKeys(ready.rules), w.rows, env.encode)
          case Failure(e) => Outcome(Some(q), None, w.rows, NoCursor, Some(e))
          case Success(c) => Outcome(Some(q), None, w.rows, c, None)
  }

  /**
   * Paginate runs no query exactly when validation or decoding fails; then
   * it returns that error and leaves the destination as it was.
   */
  lemma PaginateEarlyExit(s: State, env: Env, dest: seq<Row>)
    ensures PaginateOutcome(s, env, dest).query.None? <==>
      Validation(s, env.ruleError).Some? || DecodeSpec(PaginateState(s, env), env.decode).Failure?
    ensures PaginateOutcome(s, env, dest).query.None? ==>
      PaginateOutcome(s, env, dest).err.Some? && PaginateOutcome(s, env, dest).dest == dest
      && PaginateOutcome(s, env, dest).cursor == NoCursor
    ensures |s.rules| == 0 ==>
      PaginateOutcome(s, env, dest).err == Some(ErrNoRule) && PaginateOutcome(s, env, dest).query.None?
    ensures Validation(s, env.ruleError).None? && DecodeSpec(PaginateState(s, env), env.decode).Failure? ==>
      PaginateOutcome(s, env, dest).err == Some(DecodeSpec(PaginateState(s, env), env.decode).error)
  {
  }

  /**
   * After a successful query that returned rows, the cursor pair is set
   * unless the encoder failed: After encodes the last kept row and Before
   * the first, whatever the direction.
   */
  lemma PaginateCursorPair(s: State, env: Env, dest: seq<Row>)
    ensures var o := PaginateOutcome(s, env, dest);
      o.query.Some? && o.dbError.None? && o.err.None? && |o.dest| > 0 ==>
        && env.encode(GetKeys(s.rules), o.dest[|o.dest| - 1]).Success?
        && env.encode(GetKeys(s.rules), o.dest[0]).Success?
        && o.cursor.after == Some(env.encode(GetKeys(s.rules), o.dest[|o.dest| - 1]).value)
        && o.cursor.before == Some(env.encode(GetKeys(s.rules), o.dest[0]).value)
    ensures var o := PaginateOutcome(s, env, dest);
      o.cursor.after.Some? <==> o.cursor.before.Some?
  {
    if Validation(s, env.ruleError).None? {
      var ready := PaginateState(s, env);
      SetupKeepsKeys(s.rules, s.order, env);
      assert GetKeys(ready.rules) == GetKeys(s.rules);
    }
  }

  /* ------------------------------------------------------------ the object */

  class Paginator {
    var cursor: Cursor
    var rules: seq<Rule>
    var first: int
    var last: int
    var order: Order
    var invertOrder: bool

    /** The fields as a value. */
    function Snapshot(): State
      reads this
    {
      State(cursor, rules, first, last, order, invertOrder)
    }

    /** `&Paginator{}`. */
    constructor ()
      ensures Snapshot() == ZeroState
    {
      cursor := Cursor(None, None);
      rules := [];
      first := 0;
      last := 0;
      order := Unset;
      invertOrder := false;
    }

    method SetRules(rs: seq<Rule>)
      modifies this
      ensures Snapshot() == old(Snapshot()).SetRules(rs)
    {
      rules := rs;
    }

    method SetKeys(keys: seq<string>)
      modifies this
      ensures Snapshot() == old(Snapshot()).SetKeys(keys)
    {
      var rs := new Rule[|keys|];
      for i := 0 to |keys|
        modifies rs
        invariant forall j :: 0 <= j < i ==> rs[j] == Rule(keys[j], Unset, "", Nil)
      {
        rs[i] := Rule(keys[i], Unset, "", Nil);
      }
      assert rs[..] == KeyRules(keys);
      SetRules(rs[..]);
    }

    method SetFirst(n: int)
      modifies this
      ensures Snapshot() == old(Snapshot()).SetFirst(n)
    {
      first := n;
      last := 0;
    }

    method SetLast(n: int)
      modifies this
      ensures Snapshot() == old(Snapshot()).SetLast(n)
    {
      last := n;
      first := 0;
    }

    method SetOrder(o: Order)
      modifies this
      ensures Snapshot() == old(Snapshot()).SetOrder(o)
    {
      order := o;
    }

    method SetAfterCursor(c: string)
      modifies this
      ensures Snapshot() == old(Snapshot()).SetAfterCursor(c)
    {
      cursor := cursor.(after := Some(c));
    }

    method SetBeforeCursor(c: string)
      modifies this
      ensures Snapshot() == old(Snapshot()).SetBeforeCursor(c)
    {
      cursor := cursor.(before := Some(c));
    }

    method SetInvert(b: bool)
      modifies this
      ensures Snapshot() == old(Snapshot()).SetInvert(b)
    {
      invertOrder := b;
    }

    /** validate: ErrNoRule, then the order's check, then each rule's check in turn. */
    method Validate(ruleError: Rule -> Option<Error>) returns (err: Option<Error>)
      ensures err == Validation(Snapshot(), ruleError)
    {
      if |rules| == 0 {
        return Some(ErrNoRule);
      }
      if !ValidOrder(order) {
        return Some(ErrInvalidOrder);
      }
      var i := 0;
      while i < |rules|
        invariant 0 <= i <= |rules|
        invariant FirstRuleError(rules, ruleError) == FirstRuleError(rules[i..], ruleError)
      {
        assert rules[i..][1..] == rules[i + 1..];
        err := ruleError(rules[i]);
        if err.Some? {
          return;
        }
        i := i + 1;
      }
      return None;
    }

    /** setup: resolves every rule in place; the table name is looked up once. */
    method Setup(env: Env)
      modifies this
      ensures Snapshot() == old(Snapshot()).(rules := SetupRules(old(rules), old(order), env))
    {
      var sqlTable := "";
      var i := 0;
      while i < |rules|
        invariant 0 <= i <= |rules| == |old(rules)|
        invariant forall j :: 0 <= j < i ==> rules[j] == SetupRule(old(rules)[j], order, env)
        invariant forall j :: i <= j < |rules| ==> rules[j] == old(rules)[j]
        invariant sqlTable == "" || sqlTable == env.table
        invariant cursor == old(cursor) && first == old(first) && last == old(last)
        invariant order == old(order) && invertOrder == old(invertOrder)
      {
        var rule := rules[i];
        if rule.sqlRepr == "" {
          if sqlTable == "" {
            sqlTable := env.table;
          }
          var sqlKey := ParseSQLKey(env.tagOf(rule.key), rule.key, env.toSnake);
          rule := rule.(sqlRepr := sqlTable + "." + sqlKey);
        }
        if rule.nullReplacement != Nil {
          rule := rule.(sqlRepr := "COALESCE(" + rule.sqlRepr + ", '" + env.render(rule.nullReplacement) + "')");
        }
        if rule.order == Unset {
          rule := rule.(order := order);
        }
        rules := rules[i := rule];
        i := i + 1;
      }
    }

    /** decodeCursor: decode the chosen cursor string, then replace nil fields in place. */
    method DecodeCursor(decode: (seq<string>, string) -> Option<seq<Value>>) returns (r: Result<seq<Value>, Error>)
      ensures r == DecodeSpec(Snapshot(), decode)
    {
      var result: seq<Value> := [];
      var err: Option<Error> := None;
      if IsForward(cursor) && cursor.after.Some? {
        match decode(GetKeys(rules), cursor.after.value) {
          case None => err := Some(ErrInvalidCursor);
          case Some(fs) => result := fs;
        }
      } else if IsBackward(cursor) {
        match decode(GetKeys(rules), cursor.before.value) {
          case None => err := Some(ErrInvalidCursor);
          case Some(fs) => result := fs;
        }
      }
      ghost var decoded := result;
      ghost var source := CursorSource(cursor);
      assert err.Some? ==> decoded == [] && source.Some? && decode(GetKeys(rules), source.value).None?;
      assert err.None? ==> (source.None? && decoded == []) || (source.Some? && decode(GetKeys(rules), source.value) == Some(decoded));
      var i := 0;
      while i < |result|
        invariant 0 <= i <= |result| == |decoded|
        invariant forall j :: 0 <= j < i ==> j < |rules| || decoded[j] != Nil
        invariant forall j :: 0 <= j < i ==>
          result[j] == if decoded[j] == Nil then rules[j].nullReplacement else decoded[j]
        invariant forall j :: i <= j < |result| ==> result[j] == decoded[j]
      {
        if result[i] == Nil {
          if i >= |rules| {
            assert decoded[i] == Nil;
            return Failure(IndexOutOfRange);
          }
          result := result[i := rules[i].nullReplacement];
        }
        i := i + 1;
      }
      if err.Some? {
        return Failure(err.value);
      }
      if source.Some? {
        assert !NilBeyondRules(decoded, rules);
        assert ReplaceNulls(decoded, rules).value == result;
      }
      r := Success(result);
    }

    /** buildOrderSQL: one "expression order" entry per rule, each flipped when `last > 0`. */
    method BuildOrderSQL() returns (s: string)
      ensures s == OrderSQL(rules, last)
    {
      var orders := new string[|rules|];
      for i := 0 to |rules|
        invariant forall j :: 0 <= j < i ==> orders[j] == OrderEntry(rules[j], last)
      {
        var o := rules[i].order;
        if last > 0 {
          o := Flip(o);
        }
        orders[i] := rules[i].sqlRepr + " " + OrderText(o);
      }
      assert orders[..] == OrderEntries(rules, last);
      s := Join(orders[..], ", ");
    }

    /** buildCursorSQLQuery: disjunct i fixes keys 0..i-1 and compares key i strictly. */
    method BuildCursorSQLQuery() returns (s: string)
      ensures s == CursorSQL(rules, IsForward(cursor), IsBackward(cursor))
    {
      var queries := new string[|rules|];
      var query := "";
      for i := 0 to |rules|
        invariant query == EqPrefix(rules, i)
        invariant forall j :: 0 <= j < i ==> queries[j] == Disjunct(rules, j, IsForward(cursor), IsBackward(cursor))
      {
        var operator := "<";
        if (IsForward(cursor) && rules[i].order == ASC) || (IsBackward(cursor) && rules[i].order == DESC) {
          operator := ">";
        }
        queries[i] := query + rules[i].sqlRepr + " " + operator + " ?";
        query := query + rules[i].sqlRepr + " = ? AND ";
      }
      assert queries[..] == DisjunctsUpTo(rules, |rules|, IsForward(cursor), IsBackward(cursor));
      s := Join(queries[..], " OR ");
    }

    /** buildCursorSQLQueryArgs: fields[:1] ++ fields[:2] ++ ... ++ fields[:n]. */
    method BuildCursorSQLQueryArgs(fields: seq<Value>) returns (args: seq<Value>)
      ensures args == CursorArgs(fields, |fields|)
      ensures |args| == Triangle(|fields|)
    {
      args := [];
      var i := 1;
      while i <= |fields|
        invariant 1 <= i <= |fields| + 1
        invariant args == CursorArgs(fields, i - 1)
      {
        args := args + fields[..i];
        i := i + 1;
      }
      CursorArgsLength(fields, |fields|);
    }

    /** appendPagingQuery: LIMIT, ORDER BY, and WHERE only when some field was decoded. */
    method AppendPagingQuery(fields: seq<Value>) returns (q: Query)
      ensures q == PagingQuery(Snapshot(), fields)
    {
      var limit: Option<int> := None;
      if first > 0 {
        limit := Some(first + 1);
      }
      if last > 0 {
        limit := Some(last + 1);
      }
      var orderBy := BuildOrderSQL();
      var where: Option<Where> := None;
      if |fields| > 0 {
        var sql := BuildCursorSQLQuery();
        var args := BuildCursorSQLQueryArgs(fields);
        where := Some(Where(sql, args));
      }
      q := Query(limit, orderBy, where);
    }

    /** encodeCursor. */
    method EncodeCursor(elems: seq<Row>, encode: (seq<string>, Row) -> Result<string, Error>) returns (r: Result<Cursor, Error>)
      requires |elems| > 0
      ensures r == EncodeSpec(GetKeys(rules), elems, encode)
    {
      var keys := GetKeys(rules);
      var after := encode(keys, elems[|elems| - 1]);
      if after.Failure? {
        return Failure(after.error);
      }
      var before := encode(keys, elems[0]);
      if before.Failure? {
        return Failure(before.error);
      }
      r := Success(Cursor(Some(after.value), Some(before.value)));
    }

    /** Paginate. */
    method Paginate(env: Env, dest: seq<Row>) returns (o: Outcome)
      modifies this
      ensures Snapshot() == PaginateState(old(Snapshot()), env)
      ensures o == PaginateOutcome(old(Snapshot()), env, dest)
    {
      var err := Validate(env.ruleError);
      if err.Some? {
        return Outcome(None, None, dest, NoCursor, err);
      }
      Setup(env);
      var decoded := DecodeCursor(env.decode);
      if decoded.Failure? {
        return Outcome(None, None, dest, NoCursor, Some(decoded.error));
      }
      var q := AppendPagingQuery(decoded.value);
      var found := env.find(q);
      var elems := found.rows;
      if found.error.Some? {
        return Outcome(Some(q), found.error, elems, NoCursor, None);
      }
      var c := NoCursor;
      if |elems| > 0 {
        var hasMore := false;
        if first > 0 {
          if |elems| > first {
            hasMore := true;
            elems := elems[..first];
          }
        } else if last > 0 {
          if |elems| > last {
            hasMore := true;
            elems := elems[|elems| - last - 1..|elems| - 1];
          }
        }
        assert Window(elems, hasMore) == PageWindow(found.rows, first, last);
        var encoded := EncodeCursor(elems, env.encode);
        if encoded.Failure? {
          return Outcome(Some(q), None, elems, NoCursor, Some(encoded.error));
        }
        c := encoded.value;
      }
      o := Outcome(Some(q), None, elems, c, None);
    }
  }
}
