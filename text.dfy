/** Case folding and substring search, as used by the relevance filter and
    the political-keyword check. */
module Text {

  /** An upper-case letter that `toLowerCase` folds one-to-one: ASCII `A`-`Z`
      and the Latin-1 capitals U+00C0-U+00DE except the multiplication sign. */
  predicate IsUpper(c: char)
  {
    ('A' <= c <= 'Z') || ('\U{C0}' <= c <= '\U{DE}' && c != '\U{D7}')
  }

  /** Lower case of one character; every other character is its own lower case. */
  function LowerChar(c: char): (d: char)
    ensures !IsUpper(d)
    ensures IsUpper(c) ==> d as int == c as int + 32
    ensures !IsUpper(c) ==> d == c
  {
    if IsUpper(c) then (c as int + 32) as char else c
  }

  /** `s.toLowerCase()` restricted to the characters `LowerChar` folds. */
  function ToLower(s: string): (r: string)
    ensures |r| == |s|
    ensures forall i :: 0 <= i < |r| ==> !IsUpper(r[i])
    ensures forall i :: 0 <= i < |s| ==>
              (IsUpper(s[i]) ==> r[i] as int == s[i] as int + 32) && (!IsUpper(s[i]) ==> r[i] == s[i])
  {
    seq(|s|, i requires 0 <= i < |s| => LowerChar(s[i]))
  }

  /** Lowering twice is lowering once. */
  lemma ToLowerIdempotent(s: string)
    ensures ToLower(ToLower(s)) == ToLower(s)
  {
  }

  /** `s.includes(w)`: `w` occurs in `s` at some position. */
  predicate Contains(s: string, w: string)
    ensures Contains(s, w) ==> |w| <= |s|
    ensures w == [] ==> Contains(s, w)
  {
    assert w == [] ==> w <= s[0..];
    exists i :: 0 <= i <= |s| && w <= s[i..]
  }

  /** An occurrence of `w` inside `s` is still an occurrence after text is
      added on either side: the search is by substring, not by word. */
  lemma ContainsInContext(p: string, s: string, q: string, w: string)
    requires Contains(s, w)
    ensures Contains(p + s + q, w)
  {
    var i :| 0 <= i <= |s| && w <= s[i..];
    var t := p + s + q;
    assert t[|p| + i..][..|w|] == s[i..][..|w|];
    assert w <= t[|p| + i..];
  }
}
