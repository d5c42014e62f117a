/**
 * The value types the paginator works with. `Order`, `Rule` and `Cursor`
 * are declared in files of the paginator package that are not part of this
 * model; here they are plain datatypes, with `Flip` swapping ASC and DESC.
 */
module Types {
  import opened Wrappers

  /** Any order text other than "", "ASC" and "DESC". */
  type OtherText = s: string | s != "" && s != "ASC" && s != "DESC" witness "asc"

  /** A sort direction; `Unset` is Go's zero value "" and `Other` any unrecognised text. */
  datatype Order = Unset | ASC | DESC | Other(text: OtherText)

  /** The text an order is rendered as inside ORDER BY. */
  function OrderText(o: Order): string
  {
    match o
    case Unset => ""
    case ASC => "ASC"
    case DESC => "DESC"
    case Other(t) => t
  }

  /** Order.validate: only ASC and DESC are accepted. */
  predicate ValidOrder(o: Order)
  {
    o == ASC || o == DESC
  }

  /** Order.flip: ASC and DESC swap; any other value is left as it is. */
  function Flip(o: Order): (r: Order)
    ensures ValidOrder(o) ==> ValidOrder(r) && r != o
  {
    match o
    case ASC => DESC
    case DESC => ASC
    case _ => o
  }

  /** Flipping twice gives the order back. */
  lemma FlipTwice(o: Order)
    ensures Flip(Flip(o)) == o
  {
  }

  /**
   * A value held in a row field, a decoded cursor field or a NULL
   * replacement. `Nil` stands for every Go value `isNil` reports as nil.
   */
  datatype Value = Nil | Int(i: int) | Str(s: string) | Bool(b: bool)

  /** One pagination key: field name, order, SQL expression and NULL substitute (`Nil` when unset). */
  datatype Rule = Rule(key: string, order: Order, sqlRepr: string, nullReplacement: Value)

  /** The cursor pair; `None` is a nil `*string`. */
  datatype Cursor = Cursor(after: Option<string>, before: Option<string>)

  /** A destination row, seen as its fields by name. */
  datatype Row = Row(fields: map<string, Value>)

  /** The errors the paginator can return or pass through. */
  datatype Error =
    | ErrNoRule
    | ErrInvalidOrder
    | ErrInvalidCursor
    | RuleError(reason: string)      // whatever Rule.validate reports
    | EncodeError(reason: string)    // whatever the cursor encoder reports
    | DbError(reason: string)        // whatever the query engine reports
    | IndexOutOfRange                // the Go runtime panic of rules[i] with i >= len(rules)
}
