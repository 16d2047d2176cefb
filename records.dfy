/** The documents the store holds. A stored record is a Python `dict`
    from field name to value; `None` is a value of its own, and
    `dict.get` answers `None` for a missing field. */
module Records {
  import opened Text

  datatype Option<+T> = None | Some(value: T)

  /** The three failures the service raises: a missing (seller_id, sku),
      an existing one on create, and a negative fee. */
  datatype Error = NotFound | Conflict | BadRequest

  datatype Result<+T> = Ok(value: T) | Err(error: Error)

  datatype Outcome = Pass | Fail(error: Error)

  /** The field values a record holds: `None`, an `int`, a `str`, or a
      `UUID` (kept as its canonical text). */
  datatype Value = VNone | VInt(i: int) | VStr(s: string) | VId(uuid: string)

  type Record = map<string, Value>

  /** `record.get(field)`. */
  function Get(r: Record, field: string): Value {
    if field in r then r[field] else VNone
  }

  /** Python truthiness: `None`, `0` and `""` are false, a UUID is true. */
  predicate Truthy(v: Value) {
    match v
    case VNone => false
    case VInt(i) => i != 0
    case VStr(s) => s != ""
    case VId(_) => true
  }

  /** `str(v)`. */
  function Str(v: Value): string {
    match v
    case VNone => "None"
    case VInt(i) => IntToDecimal(i)
    case VStr(s) => s
    case VId(u) => u
  }

  function Rank(v: Value): nat {
    match v
    case VNone => 0
    case VInt(_) => 1
    case VStr(_) => 2
    case VId(_) => 3
  }

  /** Python's `<` on two values of one kind (integers numerically, strings
      and UUID texts code point by code point); values of different kinds
      are ordered by kind. */
  predicate ValueLess(a: Value, b: Value) {
    if Rank(a) != Rank(b) then Rank(a) < Rank(b)
    else match (a, b)
      case (VInt(x), VInt(y)) => x < y
      case (VStr(x), VStr(y)) => StrLess(x, y)
      case (VId(x), VId(y)) => StrLess(x, y)
      case _ => false
  }

  lemma ValueLessIrreflexive(a: Value)
    ensures !ValueLess(a, a)
  {
    match a
    case VStr(x) => StrLessIrreflexive(x);
    case VId(x) => StrLessIrreflexive(x);
    case _ =>
  }

  lemma ValueLessTransitive(a: Value, b: Value, c: Value)
    requires ValueLess(a, b) && ValueLess(b, c)
    ensures ValueLess(a, c)
  {
    if Rank(a) == Rank(b) == Rank(c) {
      match (a, b, c)
      case (VStr(x), VStr(y), VStr(z)) => StrLessTransitive(x, y, z);
      case (VId(x), VId(y), VId(z)) => StrLessTransitive(x, y, z);
      case _ =>
    }
  }

  lemma ValueLessTotal(a: Value, b: Value)
    ensures a == b || ValueLess(a, b) || ValueLess(b, a)
  {
    if Rank(a) == Rank(b) {
      match (a, b)
      case (VStr(x), VStr(y)) => StrLessTotal(x, y);
      case (VId(x), VId(y)) => StrLessTotal(x, y);
      case _ =>
    }
  }
}
