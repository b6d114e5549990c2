/**
 * Key labels and the case mapping the registry applies to one-character keys.
 * JavaScript strings are sequences of UTF-16 code units, so `key.length === 1`
 * holds only for a single character of the Basic Multilingual Plane; a character
 * beyond it is a surrogate pair of length 2. `toLowerCase` / `toUpperCase` are
 * modelled on ASCII letters only; every other character is its own lower and upper case.
 */
module Keys {

  /** The number of UTF-16 code units that encode `c`. */
  function Utf16Units(c: char): (n: nat)
    ensures n == 1 || n == 2
    ensures n == 1 <==> c as int < 0x1_0000
  {
    if c as int < 0x1_0000 then 1 else 2
  }

  /** `s.length` in JavaScript: the number of UTF-16 code units of `s`. */
  function JsLength(s: string): (n: nat)
    ensures |s| <= n <= 2 * |s|
  {
    if s == [] then 0 else JsLength(s[..|s| - 1]) + Utf16Units(s[|s| - 1])
  }

  /** `key.length === 1`: the key is one character of the Basic Multilingual Plane. */
  predicate Single(k: string) {
    |k| == 1 && k[0] as int < 0x1_0000
  }

  /** `Single` is exactly JavaScript's `key.length === 1`. */
  lemma {:induction false} SingleIsLengthOne(k: string)
    ensures Single(k) <==> JsLength(k) == 1
  {
    if |k| == 1 {
      assert k[..0] == [];
    }
  }

  /** ASCII stand-in for `String.prototype.toLowerCase` on one character. */
  function LowerChar(c: char): (r: char)
    ensures 'A' <= c <= 'Z' ==> 'a' <= r <= 'z' && r as int == c as int + 32
    ensures !('A' <= c <= 'Z') ==> r == c
  {
    if 'A' <= c <= 'Z' then (c as int + 32) as char else c
  }

  /** ASCII stand-in for `String.prototype.toUpperCase` on one character. */
  function UpperChar(c: char): (r: char)
    ensures 'a' <= c <= 'z' ==> 'A' <= r <= 'Z' && r as int == c as int - 32
    ensures !('a' <= c <= 'z') ==> r == c
  {
    if 'a' <= c <= 'z' then (c as int - 32) as char else c
  }

  /** `key.toLowerCase()` for a one-character key. */
  function LowerKey(k: string): (r: string)
    requires Single(k)
    ensures Single(r) && (r == k <==> !('A' <= k[0] <= 'Z'))
  {
    [LowerChar(k[0])]
  }

  /** `key.toUpperCase()` for a one-character key. */
  function UpperKey(k: string): (r: string)
    requires Single(k)
    ensures Single(r) && (r == k <==> !('a' <= k[0] <= 'z'))
  {
    [UpperChar(k[0])]
  }

  /** The label a key is stored under: one-character keys are lower-cased, others kept as given. */
  function StorageKey(key: string): (r: string)
    ensures |r| == |key|
    ensures !Single(key) ==> r == key
    ensures Single(key) ==> LowerKey(key) == r && Single(r) && LowerKey(r) == r
  {
    if Single(key) then LowerKey(key) else key
  }

  /** A one-character key has no case when its lower and upper forms agree (digits, punctuation). */
  predicate Caseless(k: string)
    requires Single(k)
  {
    LowerKey(k) == UpperKey(k)
  }

  /** The case forms of a one-character key are closed under further case mapping. */
  lemma CaseForms(k: string)
    requires Single(k)
    ensures LowerKey(LowerKey(k)) == LowerKey(k) && UpperKey(UpperKey(k)) == UpperKey(k)
    ensures LowerKey(UpperKey(k)) == LowerKey(k) && UpperKey(LowerKey(k)) == UpperKey(k)
    ensures k == LowerKey(k) || k == UpperKey(k)
  {
  }
}
