/** String helpers with the semantics of the JavaScript built-ins the source calls. */
module Text {

  /** `sub` occurs in `s` starting at offset `i`. */
  predicate OccursAt(s: string, sub: string, i: int) {
    0 <= i <= |s| - |sub| && s[i..i + |sub|] == sub
  }

  /** `s.includes(sub)` on strings: `sub` occurs as a contiguous run of `s`. */
  predicate Contains(s: string, sub: string) {
    exists i | 0 <= i <= |s| - |sub| :: OccursAt(s, sub, i)
  }

  /** `sub` occurs in `s + t` when it sits at offset `k` of `t`. */
  lemma ContainsAt(s: string, t: string, k: nat, sub: string)
    requires k + |sub| <= |t| && t[k..k + |sub|] == sub
    ensures Contains(s + t, sub)
  {
    var i := |s| + k;
    assert (s + t)[i..i + |sub|] == t[k..k + |sub|];
    assert OccursAt(s + t, sub, i);
  }

  /** The lower-case form of one character, for the ASCII letters. */
  function LowerChar(c: char): (r: char)
    ensures 'A' <= c <= 'Z' ==> r as int == c as int + 32
    ensures !('A' <= c <= 'Z') ==> r == c
  {
    if 'A' <= c <= 'Z' then (c as int + 32) as char else c
  }

  /** `s.toLowerCase()`, restricted to ASCII case mapping. */
  function ToLower(s: string): (r: string)
    ensures |r| == |s|
    ensures forall i :: 0 <= i < |s| ==> r[i] == LowerChar(s[i])
  {
    seq(|s|, i requires 0 <= i < |s| => LowerChar(s[i]))
  }
}
