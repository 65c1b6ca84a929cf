/**
 * Values shared by the whole model: the optional and the failing result,
 * the Python exceptions the modelled operations raise, the values that
 * sqlite3 hands back for one cell, and Python's `str()` of those values.
 */
module Values {

  datatype Option<T> = None | Some(value: T)

  /** A value, or the exception that Python raises instead of returning it. */
  datatype Result<T> = Ok(value: T) | Err(error: Error)

  /** The exceptions raised by the modelled code. */
  datatype Error =
    | MissingColumn(column: string)       // sqlite3.Row indexed by an unknown column
    | MissingQuery(name: string)          // Form[name] for a query the form does not hold (KeyError)
    | MissingKey(key: string)             // `del d[key]` for an absent key (KeyError)
    | RowIndex(index: int)                // list index out of range (IndexError)
    | Unpack(expected: nat, got: nat)     // `a, b = s.split(c)` with the wrong number of parts (ValueError)
    | NoField(field: nat)                 // `s.split(c)[index]` with too few parts (IndexError)
    | UnsupportedCallback(name: string)   // RuntimeError raised by Query.set_callback

  /** One database cell: NULL, an integer or a text value. */
  datatype Value = Null | Int(i: int) | Text(s: string)

  /** Python truthiness of a cell value. */
  predicate Truthy(v: Value) {
    match v
    case Null => false
    case Int(i) => i != 0
    case Text(s) => s != ""
  }

  function Digit(d: nat): (c: char)
    requires d < 10
    ensures '0' <= c <= '9'
  {
    ('0' as int + d) as char
  }

  predicate AllDigits(s: string) {
    forall k :: 0 <= k < |s| ==> '0' <= s[k] <= '9'
  }

  /** Python's `str(n)` for a non-negative integer: its decimal digits, no leading zero. */
  function NatToString(n: nat): (s: string)
    ensures |s| >= 1
    ensures AllDigits(s)
    ensures (|s| == 1) == (n < 10)
    decreases n
  {
    if n < 10 then [Digit(n)] else NatToString(n / 10) + [Digit(n % 10)]
  }

  /** Distinct numbers print differently. */
  lemma {:induction false} NatToStringInjective(a: nat, b: nat)
    requires NatToString(a) == NatToString(b)
    ensures a == b
    decreases a
  {
    if a >= 10 && b >= 10 {
      var sa, sb := NatToString(a / 10), NatToString(b / 10);
      assert NatToString(a) == sa + [Digit(a % 10)];
      assert NatToString(b) == sb + [Digit(b % 10)];
      assert |sa| == |sb|;
      assert sa == NatToString(a)[..|sa|] == NatToString(b)[..|sb|] == sb;
      assert Digit(a % 10) == NatToString(a)[|sa|] == Digit(b % 10);
      NatToStringInjective(a / 10, b / 10);
    } else if a < 10 && b < 10 {
      assert Digit(a) == NatToString(a)[0] == NatToString(b)[0] == Digit(b);
    }
  }

  /** Python's `str(i)` for an integer. */
  function IntToString(i: int): (s: string)
    ensures |s| >= 1
    ensures i >= 0 ==> s == NatToString(i)
    ensures i < 0 ==> s == "-" + NatToString(-i)
  {
    if i < 0 then "-" + NatToString(-i) else NatToString(i)
  }

  /** Python's `str(v)` for a cell value. */
  function ToStr(v: Value): string {
    match v
    case Null => "None"
    case Int(i) => IntToString(i)
    case Text(s) => s
  }
}
