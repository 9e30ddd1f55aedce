/** String helpers with Python's meaning: lower-casing a first letter and `str.join`. */
module Text {

  /** Lower-cases an ASCII upper-case letter; every other character is returned unchanged. */
  function Lower(c: char): char {
    if 'A' <= c <= 'Z' then (c as int - 'A' as int + 'a' as int) as char else c
  }

  /** Python's `s[:1].lower() + s[1:]` for strings whose first character is ASCII. */
  function LowerFirst(s: string): string {
    if |s| == 0 then s else [Lower(s[0])] + s[1..]
  }

  /** Python's `sep.join(xs)`. */
  function Join(xs: seq<string>, sep: string): string {
    if |xs| == 0 then ""
    else if |xs| == 1 then xs[0]
    else xs[0] + sep + Join(xs[1..], sep)
  }

  /** Where `xs[i]` starts inside `Join(xs, sep)`. */
  function Offset(xs: seq<string>, sep: string, i: nat): nat
    requires i <= |xs|
  {
    if i == 0 then 0 else |xs[0]| + |sep| + Offset(xs[1..], sep, i - 1)
  }

  /** `p` occurs inside `s` starting at position `i`. */
  predicate InfixAt(p: string, s: string, i: int) {
    0 <= i <= |s| - |p| && s[i..i + |p|] == p
  }

  /** `p` occurs somewhere inside `s`. */
  ghost predicate IsInfix(p: string, s: string) {
    exists i :: InfixAt(p, s, i)
  }

  /** Every element of a join sits at its offset, and elements appear in list order. */
  lemma {:induction false} JoinSlice(xs: seq<string>, sep: string, i: nat)
    requires i < |xs|
    ensures Offset(xs, sep, i) + |xs[i]| <= |Join(xs, sep)|
    ensures Join(xs, sep)[Offset(xs, sep, i)..Offset(xs, sep, i) + |xs[i]|] == xs[i]
    ensures i + 1 < |xs| ==> Offset(xs, sep, i) + |xs[i]| + |sep| == Offset(xs, sep, i + 1)
  {
    if |xs| == 1 {
    } else if i == 0 {
      assert Join(xs, sep) == xs[0] + (sep + Join(xs[1..], sep));
    } else {
      JoinSlice(xs[1..], sep, i - 1);
      var tail := Join(xs[1..], sep);
      var o := Offset(xs[1..], sep, i - 1);
      assert Join(xs, sep) == (xs[0] + sep) + tail;
      assert xs[1..][i - 1] == xs[i];
      assert (xs[0] + sep + tail)[|xs[0]| + |sep| + o..|xs[0]| + |sep| + o + |xs[i]|]
          == tail[o..o + |xs[i]|];
    }
  }

  /** Every element of a join occurs in it. */
  lemma JoinContains(xs: seq<string>, sep: string, i: nat)
    requires i < |xs|
    ensures IsInfix(xs[i], Join(xs, sep))
  {
    JoinSlice(xs, sep, i);
    assert InfixAt(xs[i], Join(xs, sep), Offset(xs, sep, i));
  }

  /** An infix of a part is an infix of the whole. */
  lemma InfixOfConcat(p: string, a: string, s: string, b: string)
    requires IsInfix(p, s)
    ensures IsInfix(p, a + s + b)
  {
    var i :| InfixAt(p, s, i);
    assert (a + s + b)[|a| + i..|a| + i + |p|] == s[i..i + |p|];
    assert InfixAt(p, a + s + b, |a| + i);
  }
}
