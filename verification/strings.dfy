/** The few .NET string operations the deploy hook relies on, over `string = seq<char>`. */
module Strings {
  import opened Wrappers

  /** `string.IsNullOrEmpty`: a nullable string is modelled as `Option<string>`. */
  predicate IsNullOrEmpty(s: Option<string>)
  {
    s.None? || s.value == ""
  }

  /** `Char.IsWhiteSpace`: the Unicode White_Space characters (separators of the categories
      Zs, Zl and Zp, the controls U+0009..U+000D, U+0085). */
  predicate IsWhiteSpace(c: char)
  {
    ('\t' <= c <= '\r') || c == ' ' || c == '\U{0085}' || c == '\U{00A0}' || c == '\U{1680}'
    || ('\U{2000}' <= c <= '\U{200A}') || c == '\U{2028}' || c == '\U{2029}'
    || c == '\U{202F}' || c == '\U{205F}' || c == '\U{3000}'
  }

  /** `s` ends with a character that is not white space (or is empty). */
  predicate NoTrailingWhiteSpace(s: string)
  {
    s == [] || !IsWhiteSpace(s[|s| - 1])
  }

  /** `string.TrimEnd()`: removes every trailing white-space character. The result is the
      longest prefix of `s` that does not end in white space, and only white space is cut. */
  function TrimEnd(s: string): (r: string)
    ensures r <= s
    ensures NoTrailingWhiteSpace(r)
    ensures forall i | |r| <= i < |s| :: IsWhiteSpace(s[i])
  {
    if s != [] && IsWhiteSpace(s[|s| - 1]) then TrimEnd(s[..|s| - 1]) else s
  }

  /** The three properties in TrimEnd's contract determine its result. */
  lemma TrimEndUnique(s: string, t: string)
    requires t <= s && NoTrailingWhiteSpace(t)
    requires forall i | |t| <= i < |s| :: IsWhiteSpace(s[i])
    ensures t == TrimEnd(s)
  {
  }

  /** Trailing white space (such as the newline a command prints) never changes the trim. */
  lemma TrimEndIgnoresTrailingWhiteSpace(s: string, w: string)
    requires forall i | 0 <= i < |w| :: IsWhiteSpace(w[i])
    ensures TrimEnd(s + w) == TrimEnd(s)
  {
    var t := TrimEnd(s);
    assert t <= s + w by {
      assert (s + w)[..|t|] == s[..|t|];
    }
    forall i | |t| <= i < |s + w|
      ensures IsWhiteSpace((s + w)[i])
    {
      if i >= |s| {
        assert (s + w)[i] == w[i - |s|];
      }
    }
    TrimEndUnique(s + w, t);
  }

  /** Trimming twice is trimming once. */
  lemma TrimEndIdempotent(s: string)
    ensures TrimEnd(TrimEnd(s)) == TrimEnd(s)
  {
  }

  /** `string.IndexOf(char)`: the position of the first occurrence of `c`, if any. */
  function IndexOf(s: string, c: char): (r: Option<nat>)
    ensures r.None? <==> c !in s
    ensures r.Some? ==> r.value < |s| && s[r.value] == c && c !in s[..r.value]
  {
    if s == [] then None
    else if s[0] == c then Some(0)
    else
      match IndexOf(s[1..], c)
      case None => None
      case Some(k) =>
        assert s[..k + 1] == [s[0]] + s[1..][..k];
        Some(k + 1)
  }

  /** The first `c` after a prefix free of `c` is found right after that prefix. */
  lemma IndexOfAfter(a: string, c: char, b: string)
    requires c !in a
    ensures IndexOf(a + [c] + b, c) == Some(|a|)
  {
    var s := a + [c] + b;
    assert s[|a|] == c;
  }
}
