/**
 * Username normalisation in the calculate handler: the raw field is trimmed
 * the way String.prototype.trim trims, then one leading '@' is removed.
 */
module Username {

  /**
   * The characters String.prototype.trim removes: ECMAScript WhiteSpace
   * (tab, vertical tab, form feed, the byte-order mark and every Unicode
   * space separator) and LineTerminator (LF, CR, LS, PS).
   */
  predicate IsSpace(c: char) {
    || c == '\t' || c == '\U{000B}' || c == '\U{000C}' || c == ' ' || c == '\U{00A0}' || c == '\U{FEFF}'
    || c == '\U{1680}' || ('\U{2000}' <= c <= '\U{200A}') || c == '\U{202F}' || c == '\U{205F}' || c == '\U{3000}'
    || c == '\n' || c == '\r' || c == '\U{2028}' || c == '\U{2029}'
  }

  /** Neither end of s is a trimmable character. */
  predicate Trimmed(s: string) {
    |s| == 0 || (!IsSpace(s[0]) && !IsSpace(s[|s| - 1]))
  }

  /** The number of trimmable characters at the start of s. */
  function LeadingSpaces(s: string): (k: nat)
    ensures k <= |s|
    ensures forall i :: 0 <= i < k ==> IsSpace(s[i])
    ensures k < |s| ==> !IsSpace(s[k])
  {
    if |s| == 0 || !IsSpace(s[0]) then 0 else 1 + LeadingSpaces(s[1..])
  }

  /** The index where the run of trimmable characters at the end of s begins. */
  function TrailingStart(s: string): (j: nat)
    ensures j <= |s|
    ensures forall i :: j <= i < |s| ==> IsSpace(s[i])
    ensures 0 < j ==> !IsSpace(s[j - 1])
  {
    if |s| == 0 || !IsSpace(s[|s| - 1]) then |s| else TrailingStart(s[..|s| - 1])
  }

  /** String.prototype.trim: s without its leading and trailing trimmable characters. */
  function Trim(s: string): (r: string)
    ensures Trimmed(r)
    ensures exists i, j :: 0 <= i <= j <= |s| && r == s[i..j] && OnlySpaces(s[..i]) && OnlySpaces(s[j..])
  {
    var k := LeadingSpaces(s);
    var t := s[k..];
    var j := TrailingStart(t);
    assert OnlySpaces(s[..k]);
    assert t[j..] == s[k + j..];
    assert t[..j] == s[k..k + j];
    s[k..k + j]
  }

  /** Every character of s is trimmable. */
  predicate OnlySpaces(s: string) {
    forall i :: 0 <= i < |s| ==> IsSpace(s[i])
  }

  /** The display name: the trimmed field with a single leading '@' removed. */
  function Normalize(raw: string): (name: string)
    ensures var t := Trim(raw); name == t || (|t| > 0 && t[0] == '@' && name == t[1..])
    ensures |Trim(raw)| > 0 && Trim(raw)[0] == '@' ==> |name| == |Trim(raw)| - 1
  {
    var t := Trim(raw);
    if |t| > 0 && t[0] == '@' then t[1..] else t
  }

  /** Trimming is determined by the core: padding a trimmed string with spaces and trimming gives it back. */
  lemma {:induction false} TrimPadded(pre: string, core: string, post: string)
    requires OnlySpaces(pre) && OnlySpaces(post) && Trimmed(core)
    ensures Trim(pre + core + post) == core
  {
    var s := pre + core + post;
    if |core| == 0 {
      assert OnlySpaces(s);
      AllSpaces(s);
    } else {
      LeadingOfPadded(pre, core + post);
      assert s[|pre|..] == core + post;
      TrailingOfPadded(core, post);
    }
  }

  /** A string of trimmable characters is consumed entirely by the leading run. */
  lemma {:induction false} AllSpaces(s: string)
    requires OnlySpaces(s)
    ensures LeadingSpaces(s) == |s|
  {
    if |s| > 0 {
      AllSpaces(s[1..]);
    }
  }

  /** The leading run of pre + rest is exactly pre when rest does not start with a space. */
  lemma {:induction false} LeadingOfPadded(pre: string, rest: string)
    requires OnlySpaces(pre)
    requires |rest| == 0 || !IsSpace(rest[0])
    ensures LeadingSpaces(pre + rest) == |pre|
  {
    if |pre| > 0 {
      assert (pre + rest)[1..] == pre[1..] + rest;
      LeadingOfPadded(pre[1..], rest);
    } else {
      assert pre + rest == rest;
    }
  }

  /** The trailing run of core + post starts at |core| when core does not end with a space. */
  lemma {:induction false} TrailingOfPadded(core: string, post: string)
    requires OnlySpaces(post)
    requires |core| == 0 || !IsSpace(core[|core| - 1])
    ensures TrailingStart(core + post) == |core|
    decreases |post|
  {
    if |post| > 0 {
      assert (core + post)[..|core + post| - 1] == core + post[..|post| - 1];
      TrailingOfPadded(core, post[..|post| - 1]);
    } else {
      assert core + post == core;
    }
  }

  /** Trimming twice is trimming once. */
  lemma TrimIdempotent(s: string)
    ensures Trim(Trim(s)) == Trim(s)
  {
    TrimPadded([], Trim(s), []);
    assert [] + Trim(s) + [] == Trim(s);
  }

  /** "@alice" and "alice" both display as "alice", whatever spaces surround them. */
  lemma AtSignOptional(pre: string, name: string, post: string)
    requires OnlySpaces(pre) && OnlySpaces(post) && Trimmed(name)
    requires |name| > 0 && name[0] != '@'
    ensures Normalize(pre + name + post) == name
    ensures Normalize(pre + ['@'] + name + post) == name
  {
    TrimPadded(pre, name, post);
    NormalizeAt(pre, name, post);
  }

  /** A padded "@name" displays as name. */
  lemma NormalizeAt(pre: string, name: string, post: string)
    requires OnlySpaces(pre) && OnlySpaces(post) && Trimmed(name) && |name| > 0
    ensures Normalize(pre + ['@'] + name + post) == name
  {
    var at := ['@'] + name;
    assert Trimmed(at) by {
      assert at[0] == '@' && at[|at| - 1] == name[|name| - 1];
    }
    assert pre + ['@'] + name + post == pre + at + post;
    TrimPadded(pre, at, post);
    assert at[1..] == name;
  }

  /** Only one '@' is removed: "@@alice" displays as "@alice". */
  lemma SingleAtRemoved(name: string)
    requires Trimmed(name)
    ensures Normalize(['@', '@'] + name) == ['@'] + name
  {
    var at := ['@'] + name;
    assert Trimmed(at) by {
      assert at[0] == '@';
      assert |name| > 0 ==> at[|at| - 1] == name[|name| - 1];
    }
    NormalizeAt([], at, []);
    assert [] + ['@'] + at + [] == ['@', '@'] + name;
  }

  /** A field holding only spaces, or only spaces and one '@', normalises to the empty name. */
  lemma BlankIsEmpty(pre: string, post: string)
    requires OnlySpaces(pre) && OnlySpaces(post)
    ensures Normalize(pre + post) == []
    ensures Normalize(pre + ['@'] + post) == []
  {
    TrimPadded(pre, [], post);
    assert pre + [] + post == pre + post;
    TrimPadded(pre, ['@'], post);
  }
}
