/** Values and string helpers shared by the worker, server and page models. */
module Common {

  /** JavaScript's `undefined`/`null` versus a present value. */
  datatype Option<+T> = None | Some(value: T)

  /** The characters matched by `\s` in a JavaScript regular expression:
      the ECMAScript WhiteSpace and LineTerminator code points. */
  predicate IsWhitespace(c: char) {
    var n := c as int;
    n == 0x09 || n == 0x0A || n == 0x0B || n == 0x0C || n == 0x0D || n == 0x20
    || n == 0xA0 || n == 0x1680 || (0x2000 <= n <= 0x200A)
    || n == 0x2028 || n == 0x2029 || n == 0x202F || n == 0x205F
    || n == 0x3000 || n == 0xFEFF
  }

  /** `t` occurs in `s` starting at position `i`. */
  predicate OccursAt(s: string, t: string, i: nat) {
    i + |t| <= |s| && s[i..i + |t|] == t
  }

  /** An unanchored regular-expression test for the literal `t`: some
      occurrence of `t` anywhere in `s` (what `/t/.test(s)` decides). */
  ghost predicate Contains(s: string, t: string) {
    exists i: nat :: OccursAt(s, t, i)
  }

  /** A left-to-right scan for `t` in `s`, from position `from` on. */
  function ScanFrom(s: string, t: string, from: nat): (found: bool)
    requires from <= |s|
    ensures found <==> exists i: nat :: from <= i && OccursAt(s, t, i)
    decreases |s| - from
  {
    if OccursAt(s, t, from) then true
    else if from == |s| then
      assert forall i: nat :: from <= i && OccursAt(s, t, i) ==> i == from;
      false
    else
      var r := ScanFrom(s, t, from + 1);
      assert (exists i: nat :: from <= i && OccursAt(s, t, i))
          <==> (exists i: nat :: from + 1 <= i && OccursAt(s, t, i)) by {
        forall i: nat | from <= i && OccursAt(s, t, i) ensures from + 1 <= i { }
      }
      r
  }

  /** The executable substring test; it decides `Contains`. */
  function Find(s: string, t: string): (found: bool)
    ensures found <==> Contains(s, t)
  {
    ScanFrom(s, t, 0)
  }

  /** ASCII upper-case letters lowered; every other character kept. */
  function AsciiLower(c: char): (l: char)
    ensures 'A' <= c <= 'Z' ==> 'a' <= l <= 'z' && l as int == c as int + 32
    ensures !('A' <= c <= 'Z') ==> l == c
  {
    if 'A' <= c <= 'Z' then (c as int + 32) as char else c
  }

  /** `String.prototype.toLowerCase` restricted to ASCII letters. */
  function ToLower(s: string): (r: string)
    ensures |r| == |s|
    ensures forall k :: 0 <= k < |s| ==> r[k] == AsciiLower(s[k])
  {
    if s == [] then [] else [AsciiLower(s[0])] + ToLower(s[1..])
  }
}
