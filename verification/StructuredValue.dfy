/** JSON values, and the node budget that bounds free-form settings before they are used. */
module StructuredValue {

  datatype Value =
    | Null
    | Bool(b: bool)
    | Number(n: real)
    | String(s: string)
    | Array(items: seq<Value>)
    | Object(fields: seq<Field>)

  datatype Field = Field(key: string, value: Value)

  const MAX_VALUE_CHARS := 65536

  const MAX_KEY_CHARS := 256

  /** Every value inside `v`, itself included. */
  function NodeCount(v: Value): (n: nat)
    ensures n >= 1
  {
    match v
    case Array(items) => 1 + ItemCount(items)
    case Object(fields) => 1 + FieldCount(fields)
    case _ => 1
  }

  function ItemCount(items: seq<Value>): nat {
    if items == [] then 0 else NodeCount(items[0]) + ItemCount(items[1..])
  }

  function FieldCount(fields: seq<Field>): nat {
    if fields == [] then 0 else NodeCount(fields[0].value) + FieldCount(fields[1..])
  }

  /** Every string and every key, at any depth, is within its length limit. */
  predicate LengthsBounded(v: Value) {
    match v
    case String(s) => |s| <= MAX_VALUE_CHARS
    case Array(items) => forall i | 0 <= i < |items| :: LengthsBounded(items[i])
    case Object(fields) =>
      forall i | 0 <= i < |fields| :: |fields[i].key| <= MAX_KEY_CHARS && LengthsBounded(fields[i].value)
    case _ => true
  }

  lemma ItemCountSplit(items: seq<Value>, i: nat)
    requires i < |items|
    ensures ItemCount(items[i..]) == NodeCount(items[i]) + ItemCount(items[i + 1..])
  {
    assert items[i..][1..] == items[i + 1..];
  }

  lemma FieldCountSplit(fields: seq<Field>, i: nat)
    requires i < |fields|
    ensures FieldCount(fields[i..]) == NodeCount(fields[i].value) + FieldCount(fields[i + 1..])
  {
    assert fields[i..][1..] == fields[i + 1..];
  }

  /**
   `structured_value_is_bounded`: spend one unit of a shared budget per value and stop at the first
   violation. It accepts exactly the values whose node count fits the budget and whose strings and keys
   are short enough, and then the node count is exactly what was spent.
   */
  method IsBounded(v: Value, remaining0: nat) returns (ok: bool, remaining: nat)
    ensures ok <==> NodeCount(v) <= remaining0 && LengthsBounded(v)
    ensures ok ==> remaining == remaining0 - NodeCount(v)
    ensures remaining <= remaining0
    decreases v
  {
    remaining := remaining0;
    if remaining == 0 {
      return false, remaining;
    }
    remaining := remaining - 1;
    match v {
      case String(s) =>
        ok := |s| <= MAX_VALUE_CHARS;
      case Array(items) =>
        assert items[0..] == items;
        for i := 0 to |items|
          invariant remaining <= remaining0 - 1
          invariant remaining - ItemCount(items[i..]) == remaining0 - NodeCount(v)
          invariant forall j | 0 <= j < i :: LengthsBounded(items[j])
        {
          ItemCountSplit(items, i);
          ok, remaining := IsBounded(items[i], remaining);
          if !ok {
            return;
          }
        }
        ok := true;
      case Object(fields) =>
        assert fields[0..] == fields;
        for i := 0 to |fields|
          invariant remaining <= remaining0 - 1
          invariant remaining - FieldCount(fields[i..]) == remaining0 - NodeCount(v)
          invariant forall j | 0 <= j < i :: |fields[j].key| <= MAX_KEY_CHARS && LengthsBounded(fields[j].value)
        {
          FieldCountSplit(fields, i);
          if |fields[i].key| > MAX_KEY_CHARS {
            return false, remaining;
          }
          ok, remaining := IsBounded(fields[i].value, remaining);
          if !ok {
            return;
          }
        }
        ok := true;
      case _ =>
        ok := true;
    }
  }

  /** The keys of every object inside `v`, at any depth. */
  ghost function Keys(v: Value): set<string> {
    match v
    case Array(items) => set i: int, k | 0 <= i < |items| && k in Keys(items[i]) :: k
    case Object(fields) =>
      (set i: int | 0 <= i < |fields| :: fields[i].key)
      + (set i: int, k | 0 <= i < |fields| && k in Keys(fields[i].value) :: k)
    case _ => {}
  }
}
