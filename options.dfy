/**
 * The configuration layer of paginator/option.go: a `Config` whose every
 * field is "unset" at its zero value, applied to a paginator through its
 * setters; `New` applies the default configuration and then each option
 * in order; the `With*` constructors each set one field.
 */
module Options {
  import opened Wrappers
  import opened Types
  import opened Pagination

  /** A configuration; `None` is a nil slice, 0, Unset and "" leave the field alone. */
  datatype Config = Config(
    rules: Option<seq<Rule>>,
    keys: Option<seq<string>>,
    first: int,
    last: int,
    order: Order,
    after: string,
    before: string,
    invertOrder: bool)
  {
    /** Config.Apply: the guarded setter calls, then SetInvert unconditionally. */
    method Apply(p: Paginator)
      modifies p
      ensures p.Snapshot() == Applied(this, old(p.Snapshot()))
    {
      if rules.Some? {
        p.SetRules(rules.value);
      }
      if rules.None? && keys.Some? {
        p.SetKeys(keys.value);
      }
      if first != 0 {
        p.SetFirst(first);
      }
      if last != 0 {
        p.SetLast(last);
        p.SetFirst(0);
      }
      if order != Unset {
        p.SetOrder(order);
      }
      if after != "" {
        p.SetAfterCursor(after);
      }
      if before != "" {
        p.SetBeforeCursor(before);
      }
      p.SetInvert(invertOrder);
    }
  }

  /** The configuration with every field at its zero value. */
  const Blank := Config(None, None, 0, 0, Unset, "", "", false)

  /** The fields a configuration sets, by their names in option.go. */
  function SetFields(c: Config): (fs: set<string>)
    ensures fs == {} <==> c == Blank
  {
    (if c.rules.Some? then {"Rules"} else {}) + (if c.keys.Some? then {"Keys"} else {})
    + (if c.first != 0 then {"First"} else {}) + (if c.last != 0 then {"Last"} else {})
    + (if c.order != Unset then {"Order"} else {}) + (if c.after != "" then {"After"} else {})
    + (if c.before != "" then {"Before"} else {}) + (if c.invertOrder then {"InvertOrder"} else {})
  }

  /** defaultConfig: key "ID", first 10, order DESC, and nothing else. */
  function DefaultConfig(): (c: Config)
    ensures SetFields(c) == {"Keys", "First", "Order"}
    ensures c.keys == Some(["ID"]) && c.first == 10 && c.order == DESC
  {
    Blank.(keys := Some(["ID"]), first := 10, order := DESC)
  }

  /** What applying `c` does to a paginator's state. */
  function Applied(c: Config, s: State): State
  {
    var s1 := if c.rules.Some? then s.SetRules(c.rules.value) else s;
    var s2 := if c.rules.None? && c.keys.Some? then s1.SetKeys(c.keys.value) else s1;
    var s3 := if c.first != 0 then s2.SetFirst(c.first) else s2;
    var s4 := if c.last != 0 then s3.SetLast(c.last).SetFirst(0) else s3;
    var s5 := if c.order != Unset then s4.SetOrder(c.order) else s4;
    var s6 := if c.after != "" then s5.SetAfterCursor(c.after) else s5;
    var s7 := if c.before != "" then s6.SetBeforeCursor(c.before) else s6;
    s7.SetInvert(c.invertOrder)
  }

  /** Applying configurations left to right. */
  function ApplyAll(cs: seq<Config>, s: State): State
  {
    if |cs| == 0 then s else ApplyAll(cs[1..], Applied(cs[0], s))
  }

  /** The state New(opts...) produces. */
  function NewState(opts: seq<Config>): State
  {
    ApplyAll([DefaultConfig()] + opts, ZeroState)
  }

  /** New: a zero paginator, the default configuration, then each option in order. */
  method New(opts: seq<Config>) returns (p: Paginator)
    ensures fresh(p)
    ensures p.Snapshot() == NewState(opts)
  {
    p := new Paginator();
    var all := [DefaultConfig()] + opts;
    for i := 0 to |all|
      invariant p.Snapshot() == ApplyAll(all[..i], ZeroState)
    {
      ApplyAllSnoc(all[..i], all[i], ZeroState);
      assert all[..i + 1] == all[..i] + [all[i]];
      all[i].Apply(p);
    }
    assert all[..|all|] == all;
  }

  function WithRules(rules: Option<seq<Rule>>): (c: Config)
    ensures c.rules == rules && SetFields(c) <= {"Rules"}
  { Blank.(rules := rules) }

  function WithKeys(keys: Option<seq<string>>): (c: Config)
    ensures c.keys == keys && SetFields(c) <= {"Keys"}
  { Blank.(keys := keys) }

  function WithFirst(first: int): (c: Config)
    ensures c.first == first && SetFields(c) <= {"First"}
  { Blank.(first := first) }

  function WithLast(last: int): (c: Config)
    ensures c.last == last && SetFields(c) <= {"Last"}
  { Blank.(last := last) }

  function WithOrder(order: Order): (c: Config)
    ensures c.order == order && SetFields(c) <= {"Order"}
  { Blank.(order := order) }

  function WithAfter(after: string): (c: Config)
    ensures c.after == after && SetFields(c) <= {"After"}
  { Blank.(after := after) }

  function WithBefore(before: string): (c: Config)
    ensures c.before == before && SetFields(c) <= {"Before"}
  { Blank.(before := before) }

  /* -------------------------------------------------------------- lemmas */

  /** Applying one more configuration after a list is applying it to the list's result. */
  lemma {:induction false} ApplyAllSnoc(cs: seq<Config>, c: Config, s: State)
    ensures ApplyAll(cs + [c], s) == Applied(c, ApplyAll(cs, s))
  {
    if |cs| == 0 {
      assert [c][1..] == [];
    } else {
      assert (cs + [c])[1..] == cs[1..] + [c];
      ApplyAllSnoc(cs[1..], c, Applied(cs[0], s));
    }
  }

  /**
   * Non-nil rules replace the rules; keys count only when rules are nil;
   * with both nil the rules stay.
   */
  lemma ApplyRules(c: Config, s: State)
    ensures c.rules.Some? ==> Applied(c, s).rules == c.rules.value
    ensures c.rules.None? && c.keys.Some? ==> Applied(c, s).rules == KeyRules(c.keys.value)
    ensures c.rules.None? && c.keys.None? ==> Applied(c, s).rules == s.rules
  {
  }

  /**
   * A zero first, last, order, after or before leaves that part of the
   * state as it was; invertOrder is always overwritten.
   */
  lemma ApplyZeroFieldsKeep(c: Config, s: State)
    ensures c.first == 0 && c.last == 0 ==> Applied(c, s).first == s.first && Applied(c, s).last == s.last
    ensures c.order == Unset ==> Applied(c, s).order == s.order
    ensures c.after == "" ==> Applied(c, s).cursor.after == s.cursor.after
    ensures c.before == "" ==> Applied(c, s).cursor.before == s.cursor.before
    ensures Applied(c, s).invertOrder == c.invertOrder
  {
  }

  /** The blank configuration only resets invertOrder. */
  lemma ApplyBlank(s: State)
    ensures Applied(Blank, s) == s.(invertOrder := false)
  {
  }

  /** A non-zero Last runs SetLast and then SetFirst(0): both page sizes end at zero. */
  lemma ApplyLastClearsBoth(c: Config, s: State)
    requires c.last != 0
    ensures Applied(c, s).first == 0 && Applied(c, s).last == 0
  {
  }

  /** A non-zero First with a zero Last sets first and clears last. */
  lemma ApplyFirst(c: Config, s: State)
    requires c.first != 0 && c.last == 0
    ensures Applied(c, s).first == c.first && Applied(c, s).last == 0
  {
  }

  /** Every configuration keeps at most one page size non-zero. */
  lemma {:induction false} ApplyAllKeepsPageSizeExclusive(cs: seq<Config>, s: State)
    requires s.PageSizeExclusive()
    ensures ApplyAll(cs, s).PageSizeExclusive()
  {
    if |cs| > 0 {
      ApplyAllKeepsPageSizeExclusive(cs[1..], Applied(cs[0], s));
    }
  }

  /** New with no option: rules [{Key: "ID"}], first 10, last 0, DESC, no cursor, no inversion. */
  lemma NewDefaults()
    ensures NewState([]) == State(Cursor(None, None), [Rule("ID", Unset, "", Nil)], 10, 0, DESC, false)
  {
    assert [DefaultConfig()] + [] == [DefaultConfig()];
    assert KeyRules(["ID"]) == [Rule("ID", Unset, "", Nil)];
    assert ApplyAll([DefaultConfig()], ZeroState) == ApplyAll([], Applied(DefaultConfig(), ZeroState));
  }

  /** New applies the options after the defaults, left to right. */
  lemma {:induction false} NewAppliesInOrder(opts: seq<Config>, c: Config)
    ensures NewState(opts + [c]) == Applied(c, NewState(opts))
    ensures NewState(opts).PageSizeExclusive()
  {
    assert [DefaultConfig()] + (opts + [c]) == ([DefaultConfig()] + opts) + [c];
    ApplyAllSnoc([DefaultConfig()] + opts, c, ZeroState);
    ApplyAllKeepsPageSizeExclusive([DefaultConfig()] + opts, ZeroState);
  }

  /** The last configuration that sets an order decides the order. */
  lemma {:induction false} LastOrderWins(cs: seq<Config>, k: nat, s: State)
    requires k < |cs| && cs[k].order != Unset
    requires forall j :: k < j < |cs| ==> cs[j].order == Unset
    ensures ApplyAll(cs, s).order == cs[k].order
  {
    if k == 0 {
      UnsetOrdersKeep(cs[1..], Applied(cs[0], s));
    } else {
      LastOrderWins(cs[1..], k - 1, Applied(cs[0], s));
    }
  }

  lemma {:induction false} UnsetOrdersKeep(cs: seq<Config>, s: State)
    requires forall j :: 0 <= j < |cs| ==> cs[j].order == Unset
    ensures ApplyAll(cs, s).order == s.order
  {
    if |cs| > 0 {
      UnsetOrdersKeep(cs[1..], Applied(cs[0], s));
    }
  }

  /** invertOrder after New is that of the last option (false for the defaults). */
  lemma NewInvertIsLastOptions(opts: seq<Config>)
    ensures NewState(opts).invertOrder == if |opts| == 0 then false else opts[|opts| - 1].invertOrder
  {
    if |opts| > 0 {
      var init := opts[..|opts| - 1];
      assert opts == init + [opts[|opts| - 1]];
      NewAppliesInOrder(init, opts[|opts| - 1]);
    } else {
      NewDefaults();
    }
  }

  /** WithOrder changes only the order (when set), besides resetting invertOrder. */
  lemma WithOrderOnlyOrder(o: Order, s: State)
    ensures Applied(WithOrder(o), s) == (if o == Unset then s else s.(order := o)).(invertOrder := false)
  {
  }

  /** WithFirst(n), n non-zero: first n, last 0, nothing else but invertOrder. */
  lemma WithFirstSetsFirst(n: int, s: State)
    requires n != 0
    ensures Applied(WithFirst(n), s) == s.(first := n, last := 0, invertOrder := false)
  {
  }

  /** WithLast(n), n non-zero: both page sizes zero, so `New(WithLast(n))` has neither. */
  lemma WithLastClearsPageSizes(n: int, s: State)
    requires n != 0
    ensures Applied(WithLast(n), s) == s.(first := 0, last := 0, invertOrder := false)
    ensures NewState([WithLast(n)]).first == 0 && NewState([WithLast(n)]).last == 0
  {
    NewAppliesInOrder([], WithLast(n));
    assert [] + [WithLast(n)] == [WithLast(n)];
  }

  /** WithRules, WithKeys, WithAfter and WithBefore each touch one field. */
  lemma WithOneField(rs: seq<Rule>, keys: seq<string>, c: string, s: State)
    ensures Applied(WithRules(Some(rs)), s) == s.(rules := rs, invertOrder := false)
    ensures Applied(WithRules(None), s) == s.(invertOrder := false)
    ensures Applied(WithKeys(Some(keys)), s) == s.(rules := KeyRules(keys), invertOrder := false)
    ensures c != "" ==> Applied(WithAfter(c), s) == s.(cursor := s.cursor.(after := Some(c)), invertOrder := false)
    ensures c != "" ==> Applied(WithBefore(c), s) == s.(cursor := s.cursor.(before := Some(c)), invertOrder := false)
    ensures Applied(WithAfter(""), s) == s.(invertOrder := false)
  {
  }
}
