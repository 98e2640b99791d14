/** The few pieces of JavaScript value semantics the components rely on:
    nullable strings and their truthiness, the `x || ""` default, ASCII
    lower-casing, `String.prototype.includes` and `Array.prototype.slice`. */
module Js {

  /** An absent value (`null` or `undefined`) or a present one. */
  datatype Option<+T> = None | Some(value: T)

  /** A string-typed field that may also hold `null` or `undefined`. */
  datatype Nullable = Null | Str(s: string)

  /** JavaScript truthiness of a nullable string: `null`, `undefined` and `""`
      are falsy, every other string is truthy. */
  predicate Truthy(v: Nullable) {
    v.Str? && |v.s| > 0
  }

  /** The expression `v || ""`: a truthy string is kept, anything else becomes `""`. */
  function OrEmpty(v: Nullable): (r: string)
    ensures r != "" <==> Truthy(v)
    ensures r != "" ==> v == Str(r)
  {
    if Truthy(v) then v.s else ""
  }

  /** `toLowerCase` restricted to ASCII: 'A'..'Z' map to 'a'..'z', every other
      character is left alone. */
  function LowerChar(c: char): char {
    if 'A' <= c <= 'Z' then (c as int + 32) as char else c
  }

  function Lower(s: string): (r: string)
    ensures |r| == |s|
    ensures forall i :: 0 <= i < |s| ==> r[i] == LowerChar(s[i])
  {
    seq(|s|, i requires 0 <= i < |s| => LowerChar(s[i]))
  }

  /** Lower-casing is idempotent, so a term that is already lower case is
      compared as it stands. */
  lemma LowerIdempotent(s: string)
    ensures Lower(Lower(s)) == Lower(s)
  {
  }

  /** `needle` occurs in `hay` starting at index `i`. */
  ghost predicate OccursAt(hay: string, needle: string, i: int) {
    0 <= i && i + |needle| <= |hay| && hay[i..i + |needle|] == needle
  }

  /** `hay.includes(needle)`: true exactly when `needle` occurs somewhere in
      `hay`; in particular the empty string occurs in every string. */
  function Includes(hay: string, needle: string): (r: bool)
    ensures r <==> exists i :: OccursAt(hay, needle, i)
    decreases |hay|
  {
    if |needle| > |hay| then false
    else if hay[..|needle|] == needle then
      assert OccursAt(hay, needle, 0);
      true
    else
      var r := Includes(hay[1..], needle);
      assert forall i :: OccursAt(hay, needle, i) && i != 0 ==> OccursAt(hay[1..], needle, i - 1) by {
        forall i | OccursAt(hay, needle, i) && i != 0
          ensures OccursAt(hay[1..], needle, i - 1)
        {
          assert hay[1..][i - 1..i - 1 + |needle|] == hay[i..i + |needle|];
        }
      }
      assert forall i :: OccursAt(hay[1..], needle, i) ==> OccursAt(hay, needle, i + 1) by {
        forall i | OccursAt(hay[1..], needle, i)
          ensures OccursAt(hay, needle, i + 1)
        {
          assert hay[1..][i..i + |needle|] == hay[i + 1..i + 1 + |needle|];
        }
      }
      r
  }

  /** Every string includes the empty string. */
  lemma IncludesEmpty(hay: string)
    ensures Includes(hay, "")
  {
    assert OccursAt(hay, "", 0);
  }

  /** How `slice` resolves one of its arguments against a length: a negative
      index counts from the end (clamped at 0), a large one is clamped at the length. */
  function RelativeIndex(i: int, len: nat): (r: nat)
    ensures r <= len
    ensures 0 <= i ==> r == if i < len then i else len
    ensures i < 0 ==> r == if len + i < 0 then 0 else len + i
  {
    if i < 0 then (if len + i < 0 then 0 else len + i)
    else if i > len then len
    else i
  }

  /** `s.slice(start, end)`. */
  function Slice<T>(s: seq<T>, start: int, end: int): (r: seq<T>)
    ensures |r| <= |s|
    ensures 0 <= start <= end ==> r == s[RelativeIndex(start, |s|)..RelativeIndex(end, |s|)]
    ensures 0 <= start && |s| <= start ==> r == []
  {
    var a := RelativeIndex(start, |s|);
    var b := RelativeIndex(end, |s|);
    if a < b then s[a..b] else []
  }
}
