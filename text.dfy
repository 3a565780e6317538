/**
 * Character classes and the string clean-up the assembler applies to each
 * source line: comment stripping, trimming and upper-casing. Characters are
 * treated as ASCII: the source's regular expressions use `\w`, which only
 * ever matches ASCII letters, digits and `_`.
 */
module Text {

  /** Whitespace as `String.prototype.trim` and the regular-expression class `\s` see it (ASCII part). */
  predicate IsSpace(c: char) {
    c == ' ' || c == '\t' || c == '\n' || c == '\r' || c == '\U{0B}' || c == '\U{0C}'
  }

  /** The regular-expression class `\w`: ASCII letters, digits and `_`. */
  predicate IsWordChar(c: char) {
    ('A' <= c <= 'Z') || ('a' <= c <= 'z') || ('0' <= c <= '9') || c == '_'
  }

  /** A non-empty run of word characters: what `\w+` captures. */
  predicate IsWord(s: string) {
    |s| > 0 && forall i :: 0 <= i < |s| ==> IsWordChar(s[i])
  }

  predicate AllSpace(s: string) {
    forall i :: 0 <= i < |s| ==> IsSpace(s[i])
  }

  /** Everything from the first `;` on is a comment and is dropped. */
  function StripComment(s: string): (r: string)
    ensures ';' !in r
    ensures r <= s
    ensures |r| < |s| ==> s[|r|] == ';'
  {
    if s == [] || s[0] == ';' then []
    else [s[0]] + StripComment(s[1..])
  }

  /** Drops leading whitespace. */
  function TrimStart(s: string): (r: string)
    ensures |r| <= |s| && r == s[|s| - |r|..]
    ensures AllSpace(s[..|s| - |r|])
    ensures r == [] || !IsSpace(r[0])
  {
    if s != [] && IsSpace(s[0]) then
      var r := TrimStart(s[1..]);
      assert s[1..][..|s| - 1 - |r|] == s[1..|s| - |r|];
      r
    else s
  }

  /** Drops trailing whitespace. */
  function TrimEnd(s: string): (r: string)
    ensures r <= s
    ensures AllSpace(s[|r|..])
    ensures r == [] || !IsSpace(r[|r| - 1])
  {
    if s != [] && IsSpace(s[|s| - 1]) then
      var r := TrimEnd(s[..|s| - 1]);
      assert s[|r|..] == s[..|s| - 1][|r|..] + [s[|s| - 1]];
      r
    else s
  }

  /** `String.prototype.trim`: the text between the leading and the trailing whitespace. */
  function Trim(s: string): (r: string)
    ensures r == [] <==> AllSpace(s)
    ensures r != [] ==> !IsSpace(r[0]) && !IsSpace(r[|r| - 1])
    ensures exists i, j :: 0 <= i <= j <= |s| && r == s[i..j] && AllSpace(s[..i]) && AllSpace(s[j..])
  {
    TrimBlank(s);
    TrimMiddle(s);
    TrimEnd(TrimStart(s))
  }

  /** Trimming removes a whitespace prefix and a whitespace suffix and keeps the middle as it is. */
  lemma TrimMiddle(s: string)
    ensures var r := TrimEnd(TrimStart(s));
      exists i, j :: 0 <= i <= j <= |s| && r == s[i..j] && AllSpace(s[..i]) && AllSpace(s[j..])
  {
    var t := TrimStart(s);
    var r := TrimEnd(t);
    MiddleOf(s, t, r);
    var i := |s| - |t|;
    assert AllSpace(s[..i]);
  }

  /** A prefix `r` of a suffix `t` of `s`, with whitespace after `r` in `t`, is the slice of `s` where `t` starts, followed by whitespace. */
  lemma MiddleOf(s: string, t: string, r: string)
    requires |t| <= |s| && t == s[|s| - |t|..]
    requires r <= t && AllSpace(t[|r|..])
    ensures r == s[|s| - |t|..|s| - |t| + |r|] && AllSpace(s[|s| - |t| + |r|..])
  {
    var i := |s| - |t|;
    var j := i + |r|;
    assert r == t[..|r|] == s[i..j];
    assert t[|r|..] == s[j..];
  }

  /** Trimming leaves nothing exactly when the text is all whitespace, and keeps a non-space first character. */
  lemma TrimBlank(s: string)
    ensures var t := TrimStart(s); var r := TrimEnd(t);
      (r == [] <==> AllSpace(s)) && (r != [] ==> !IsSpace(r[0]))
  {
    TrimStartBlank(s);
    TrimEndKeepsFirst(TrimStart(s));
  }

  /** Dropping leading whitespace leaves nothing exactly when the text is all whitespace. */
  lemma TrimStartBlank(s: string)
    ensures TrimStart(s) == [] <==> AllSpace(s)
  {
    var t := TrimStart(s);
    if t == [] {
      assert s[..|s|] == s;
    } else {
      assert t[0] == s[|s| - |t|];
    }
  }

  /** Dropping trailing whitespace from text with a non-space first character keeps that character. */
  lemma TrimEndKeepsFirst(t: string)
    requires t == [] || !IsSpace(t[0])
    ensures TrimEnd(t) == [] <==> t == []
    ensures t != [] ==> TrimEnd(t)[0] == t[0]
  {
    var r := TrimEnd(t);
    if r == [] {
      assert t[|r|..] == t;
    }
  }

  /** Text that neither starts nor ends with whitespace is left alone by trimming. */
  lemma TrimUnchanged(s: string)
    requires s != [] && !IsSpace(s[0]) && !IsSpace(s[|s| - 1])
    ensures TrimStart(s) == s && Trim(s) == s
  {
  }

  /** `String.prototype.toUpperCase` on one ASCII character. */
  function UpperChar(c: char): char {
    if 'a' <= c <= 'z' then (c as int - 32) as char else c
  }

  /** `String.prototype.toUpperCase` on ASCII text, character by character. */
  function Upper(s: string): (r: string)
    ensures |r| == |s|
    ensures IsWord(s) ==> IsWord(r)
  {
    if s == [] then [] else [UpperChar(s[0])] + Upper(s[1..])
  }

  /** Upper-casing leaves no lower-case letter, shifts each lower-case letter to its capital, and changes nothing else. */
  lemma {:induction false} UpperMeaning(s: string)
    ensures forall i :: 0 <= i < |s| ==> !('a' <= Upper(s)[i] <= 'z')
    ensures forall i :: 0 <= i < |s| && !('a' <= s[i] <= 'z') ==> Upper(s)[i] == s[i]
    ensures forall i :: 0 <= i < |s| && 'a' <= s[i] <= 'z' ==> Upper(s)[i] as int == s[i] as int - 32
  {
    if s != [] {
      UpperMeaning(s[1..]);
      assert forall i :: 1 <= i < |s| ==> Upper(s)[i] == Upper(s[1..])[i - 1];
    }
  }

  /** Text without lower-case ASCII letters. */
  predicate NoLower(s: string) {
    forall i :: 0 <= i < |s| ==> !('a' <= s[i] <= 'z')
  }

  /** Two texts that are equal when case is ignored, character by character. */
  predicate Caseless(a: string, b: string) {
    |a| == |b| && forall i :: 0 <= i < |a| ==> UpperChar(a[i]) == UpperChar(b[i])
  }

  /**
   * `toUpperCase` is characterised without reference to how it is computed:
   * its result is the one text that equals `s` ignoring case and has no
   * lower-case letter.
   */
  lemma UpperUnique(s: string, u: string)
    ensures NoLower(u) && Caseless(u, s) <==> u == Upper(s)
  {
    UpperMeaning(s);
    var w := Upper(s);
    assert forall i :: 0 <= i < |s| ==> w[i] == UpperChar(s[i]);
    if NoLower(u) && Caseless(u, s) {
      assert forall i :: 0 <= i < |u| ==> u[i] == UpperChar(u[i]);
      assert u == w;
    }
  }
}
