/** The loosely typed values the scripts handle: front-matter values, a
    parsed content file, optional configuration entries and the exceptions
    that abort a run. */
module Values {

  /** A scalar front-matter value as the YAML loader produces it. */
  datatype Value = VNone | VBool(b: bool) | VInt(i: int) | VStr(s: string)

  /** Python truthiness, as tested by `if template:` and `p.get(...) and ...`. */
  predicate Truthy(v: Value) {
    match v
    case VNone => false
    case VBool(b) => b
    case VInt(i) => i != 0
    case VStr(s) => s != ""
  }

  function DigitChar(d: nat): char
    requires d < 10
  {
    ('0' as int + d) as char
  }

  /** The value of a decimal digit. */
  function DigitValue(c: char): nat
    requires '0' <= c <= '9'
  {
    c as int - '0' as int
  }

  predicate AllDigits(r: string) {
    forall i :: 0 <= i < |r| ==> '0' <= r[i] <= '9'
  }

  /** The number a string of decimal digits denotes, read from the left:
      each further digit multiplies what was read by ten and adds itself. */
  ghost function DecimalValue(r: string): nat
    requires AllDigits(r)
  {
    if r == [] then 0 else 10 * DecimalValue(r[..|r| - 1]) + DigitValue(r[|r| - 1])
  }

  /** `str(n)` for a natural number: the decimal digits that denote `n`,
      most significant first, without leading zeros. */
  function NatToString(n: nat): (r: string)
    ensures |r| >= 1
    ensures AllDigits(r)
    ensures DecimalValue(r) == n
    ensures |r| > 1 ==> r[0] != '0'
  {
    if n < 10 then
      var r := [DigitChar(n)];
      assert r[..0] == [];
      r
    else
      var s := NatToString(n / 10);
      var r := s + [DigitChar(n % 10)];
      assert r[..|r| - 1] == s;
      r
  }

  /** `str(v)`, as an f-string formats a value. */
  function Show(v: Value): string {
    match v
    case VNone => "None"
    case VBool(b) => if b then "True" else "False"
    case VInt(i) => if i < 0 then "-" + NatToString(-i) else NatToString(i)
    case VStr(s) => s
  }

  /** `d.get(key, default)` on a front-matter mapping. */
  function Get(m: map<string, Value>, key: string, default: Value): Value {
    if key in m then m[key] else default
  }

  /** A content file after `frontmatter.load`: its metadata and its body. */
  datatype Post = Post(metadata: map<string, Value>, content: string)

  /** The exceptions of the scripts that the model reaches. */
  datatype Error =
    | AttributeError  // `.strip()` on a value that is not a string
    | TypeError       // `os.path.join(None, ...)`
    | ValueError      // `random.sample` with a negative size

  datatype Result<T> = Ok(value: T) | Err(error: Error)

  datatype Option<T> = None | Some(value: T) {
    /** `config.get(key, default)` */
    function GetOr(default: T): T {
      match this
      case Some(v) => v
      case None => default
    }
  }
}
