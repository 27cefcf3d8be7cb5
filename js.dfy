/**
 * The slice of JavaScript semantics the registration code relies on: the values a
 * parsed JSON body or a stored document can hold, truthiness and `||`, property
 * lookup, and `String.prototype.trim` (ECMAScript, section 22.1.3.32, with the
 * WhiteSpace and LineTerminator code points of sections 12.2 and 12.3).
 */
module Js {

  /** A JavaScript value as it reaches a handler or a document. */
  datatype Value =
    | Undefined
    | Null
    | Bool(b: bool)
    | Num(n: int)
    | Str(s: string)
    | Arr(items: seq<Value>)
    | Obj(fields: map<string, Value>)
    | ObjectId(id: nat)

  /** ToBoolean: undefined, null, false, 0 and "" are falsy, everything else is truthy. */
  predicate Truthy(v: Value) {
    match v
    case Undefined => false
    case Null => false
    case Bool(b) => b
    case Num(n) => n != 0
    case Str(s) => s != ""
    case _ => true
  }

  /** `a || b`: the left operand when it is truthy, otherwise the right one. */
  function Or(a: Value, b: Value): Value {
    if Truthy(a) then a else b
  }

  /** `o[k]` on a plain object: a missing property reads as undefined. */
  function Get(o: map<string, Value>, k: string): Value {
    if k in o then o[k] else Undefined
  }

  /** The code points `trim` removes: WhiteSpace (TAB, VT, FF, SP, NBSP, ZWNBSP and the
      Zs category) and LineTerminator (LF, CR, LS, PS). */
  predicate IsWhite(c: char) {
    var n := c as int;
    || n == 0x09 || n == 0x0A || n == 0x0B || n == 0x0C || n == 0x0D
    || n == 0x20 || n == 0xA0 || n == 0x1680
    || (0x2000 <= n <= 0x200A)
    || n == 0x2028 || n == 0x2029 || n == 0x202F || n == 0x205F
    || n == 0x3000 || n == 0xFEFF
  }

  /** Neither the first nor the last character is whitespace. */
  predicate NoOuterWhite(s: string) {
    s == [] || (!IsWhite(s[0]) && !IsWhite(s[|s| - 1]))
  }

  /** Every character of `s` is whitespace. */
  predicate AllWhite(s: string) {
    forall i :: 0 <= i < |s| ==> IsWhite(s[i])
  }

  /** Where the text of `s` starts, scanning from `i`: the first index at or after `i`
      that does not hold whitespace, or `|s|`. */
  function TextStart(s: string, i: nat): (n: nat)
    requires i <= |s|
    ensures i <= n <= |s|
    ensures AllWhite(s[i..n])
    ensures n < |s| ==> !IsWhite(s[n])
    decreases |s| - i
  {
    if i < |s| && IsWhite(s[i]) then
      var n := TextStart(s, i + 1);
      assert s[i..n] == [s[i]] + s[i + 1..n];
      n
    else i
  }

  /** Where the text of `s` ends, scanning back from `j` but not past `lo`: the index
      just after the last non-whitespace character in `s[lo..j]`, or `lo`. */
  function TextEnd(s: string, lo: nat, j: nat): (n: nat)
    requires lo <= j <= |s|
    ensures lo <= n <= j
    ensures AllWhite(s[n..j])
    ensures n > lo ==> !IsWhite(s[n - 1])
    decreases j - lo
  {
    if j > lo && IsWhite(s[j - 1]) then
      var n := TextEnd(s, lo, j - 1);
      assert s[n..j] == s[n..j - 1] + [s[j - 1]];
      n
    else j
  }

  /** `s.trim()`: `s` with the whitespace at both ends removed. The result is the infix
      of `s` between the leading and the trailing whitespace, and it has no outer
      whitespace of its own. */
  function Trim(s: string): (r: string)
    ensures NoOuterWhite(r)
    ensures var i := TextStart(s, 0);
      && i + |r| <= |s|
      && r == s[i..i + |r|]
      && AllWhite(s[..i])
      && AllWhite(s[i + |r|..])
  {
    var i := TextStart(s, 0);
    var j := TextEnd(s, i, |s|);
    s[i..j]
  }

  /** `s.trim() === s` holds exactly when `s` has no whitespace at either end. */
  lemma TrimUnchangedIff(s: string)
    ensures Trim(s) == s <==> NoOuterWhite(s)
  {
    if NoOuterWhite(s) && s != [] {
      assert TextStart(s, 0) == 0;
      assert TextEnd(s, 0, |s|) == |s|;
      assert s[0..|s|] == s;
    }
  }
}
