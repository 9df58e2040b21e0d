/**
  The placeholder substitutor (`variable_substitutor::run`): a single
  left-to-right pass over one string that replaces every `{{ name }}` token
  by the table value of `name` (or by nothing when `name` is unknown) and
  copies all other characters verbatim.

  The token grammar is `{{`, any number of spaces, a name
  `[A-Za-z][A-Za-z0-9_]*`, any number of spaces, `}}`. The source finds the
  tokens with a compile-time regular expression; here a hand-written prefix
  scanner `MatchPrefix` recognises exactly the same language (lemma
  `MatchPrefixExact`), and `Substitute` tries it at each position in turn.
 */
module Substitutor {
  import opened Common

  /** `k` space characters. */
  function Spaces(k: nat): (r: string)
    ensures |r| == k
    ensures forall i :: 0 <= i < k ==> r[i] == ' '
  {
    seq(k, _ => ' ')
  }

  /** The placeholder token for `name` with `k1` spaces before and `k2` after the name. */
  function Placeholder(name: string, k1: nat, k2: nat): string {
    "{{" + Spaces(k1) + name + Spaces(k2) + "}}"
  }

  /** The grammar of a token, stated declaratively: `t` is a placeholder naming `name`. */
  ghost predicate IsPlaceholder(t: string, name: string) {
    ValidName(name) && exists k1: nat, k2: nat :: t == Placeholder(name, k1, k2)
  }

  /** End of the run of spaces starting at `i` (greedy `[ ]*`). */
  function SkipSpaces(s: string, i: nat): (j: nat)
    requires i <= |s|
    ensures i <= j <= |s|
    ensures forall k :: i <= k < j ==> s[k] == ' '
    ensures j == |s| || s[j] != ' '
    decreases |s| - i
  {
    if i < |s| && s[i] == ' ' then SkipSpaces(s, i + 1) else i
  }

  lemma SkipSpacesExact(s: string, i: nat, j: nat)
    requires i <= j <= |s|
    requires forall k :: i <= k < j ==> s[k] == ' '
    requires j == |s| || s[j] != ' '
    ensures SkipSpaces(s, i) == j
  {
  }

  /** A token found at the start of a string: the name it refers to and its length. */
  datatype Token = Token(name: string, len: nat)

  /**
    The token that `s` starts with, if any. The regular expression of the
    source has a single way to succeed at a given position (every repeated
    piece is followed by a character it cannot consume), so a greedy scan
    decides it.
   */
  function MatchPrefix(s: string): (r: Option<Token>)
    ensures r.Some? ==> 5 <= r.value.len <= |s|
  {
    if |s| >= 2 && s[0] == '{' && s[1] == '{' then
      var a := SkipSpaces(s, 2);
      if a < |s| && IsLetter(s[a]) then
        var b := SkipNameChars(s, a + 1);
        var c := SkipSpaces(s, b);
        if c + 2 <= |s| && s[c] == '}' && s[c + 1] == '}' then
          Some(Token(s[a..b], c + 2))
        else
          None
      else
        None
    else
      None
  }

  /** The pieces `MatchPrefix` scans over spell out a token of the grammar. */
  lemma ScannedTokenIsPlaceholder(s: string, a: nat, b: nat, c: nat)
    requires 2 <= a < b <= c && c + 2 <= |s|
    requires s[0] == '{' && s[1] == '{' && s[c] == '}' && s[c + 1] == '}'
    requires forall k :: 2 <= k < a ==> s[k] == ' '
    requires IsLetter(s[a]) && forall k :: a < k < b ==> IsNameChar(s[k])
    requires forall k :: b <= k < c ==> s[k] == ' '
    ensures IsPlaceholder(s[..c + 2], s[a..b])
  {
    assert s[2..a] == Spaces(a - 2);
    assert s[b..c] == Spaces(c - b);
    assert s[..c + 2] == s[..2] + s[2..a] + s[a..b] + s[b..c] + s[c..c + 2];
    assert s[..c + 2] == Placeholder(s[a..b], a - 2, c - b);
  }

  /** What `MatchPrefix` finds is a token of the grammar. */
  lemma MatchPrefixSound(s: string)
    ensures MatchPrefix(s).Some? ==> IsPlaceholder(s[..MatchPrefix(s).value.len], MatchPrefix(s).value.name)
  {
    if MatchPrefix(s).Some? {
      var a := SkipSpaces(s, 2);
      var b := SkipNameChars(s, a + 1);
      var c := SkipSpaces(s, b);
      ScannedTokenIsPlaceholder(s, a, b, c);
    }
  }

  /** The scan succeeds on any string laid out as braces, spaces, a name, spaces and braces. */
  lemma ScanOfLayout(s: string, a: nat, b: nat, c: nat)
    requires 2 <= a < b <= c && c + 2 <= |s|
    requires s[0] == '{' && s[1] == '{' && s[c] == '}' && s[c + 1] == '}'
    requires forall k :: 2 <= k < a ==> s[k] == ' '
    requires IsLetter(s[a]) && forall k :: a < k < b ==> IsNameChar(s[k])
    requires forall k :: b <= k < c ==> s[k] == ' '
    ensures MatchPrefix(s) == Some(Token(s[a..b], c + 2))
  {
    SkipSpacesExact(s, 2, a);
    assert s[b] == ' ' || s[b] == '}';
    SkipNameCharsExact(s, a + 1, b);
    SkipSpacesExact(s, b, c);
  }

  /** Every token of the grammar is recognised, whatever follows it. */
  lemma MatchPrefixComplete(name: string, k1: nat, k2: nat, rest: string)
    requires ValidName(name)
    ensures MatchPrefix(Placeholder(name, k1, k2) + rest)
            == Some(Token(name, |Placeholder(name, k1, k2)|))
  {
    var sp1, sp2 := Spaces(k1), Spaces(k2);
    var s := "{{" + sp1 + name + sp2 + "}}" + rest;
    var a := 2 + k1;
    var b := a + |name|;
    var c := b + k2;
    assert forall k :: 2 <= k < a ==> s[k] == sp1[k - 2];
    assert forall k :: a <= k < b ==> s[k] == name[k - a];
    assert forall k :: b <= k < c ==> s[k] == sp2[k - b];
    assert s[c] == '}' && s[c + 1] == '}';
    assert s[a..b] == name;
    ScanOfLayout(s, a, b, c);
  }

  /** The scanner and the grammar agree exactly: `s` starts with a token naming `n` of length `e` iff `MatchPrefix` says so. */
  lemma {:induction false} MatchPrefixExact(s: string, e: nat, n: string)
    ensures MatchPrefix(s) == Some(Token(n, e)) <==> e <= |s| && IsPlaceholder(s[..e], n)
  {
    MatchPrefixSound(s);
    if e <= |s| && IsPlaceholder(s[..e], n) {
      var k1: nat, k2: nat :| s[..e] == Placeholder(n, k1, k2);
      assert s == Placeholder(n, k1, k2) + s[e..];
      MatchPrefixComplete(n, k1, k2, s[e..]);
    }
  }

  /**
    `variable_substitutor::run`: every token is replaced by the value of its
    name (the empty string for an unknown name), everything else is copied.
    Tokens are searched for in the input only, never in inserted values.
   */
  function Substitute(s: string, vars: Vars): (r: string)
    decreases |s|
  {
    if |s| == 0 then ""
    else
      match MatchPrefix(s)
      case Some(t) => Lookup(vars, t.name) + Substitute(s[t.len..], vars)
      case None => [s[0]] + Substitute(s[1..], vars)
  }

  /** A token at the front is replaced by exactly its table value (nothing if the name is unknown), and the scan resumes right after it. */
  lemma {:induction false} SubstitutePlaceholder(name: string, k1: nat, k2: nat, rest: string, vars: Vars)
    requires ValidName(name)
    ensures Substitute(Placeholder(name, k1, k2) + rest, vars)
            == Lookup(vars, name) + Substitute(rest, vars)
  {
    var p := Placeholder(name, k1, k2);
    MatchPrefixComplete(name, k1, k2, rest);
    assert (p + rest)[|p|..] == rest;
  }

  /** A character that cannot open a token is copied, and the scan moves on by one. */
  lemma SubstituteChar(c: char, rest: string, vars: Vars)
    requires c != '{'
    ensures Substitute([c] + rest, vars) == [c] + Substitute(rest, vars)
  {
    assert ([c] + rest)[1..] == rest;
  }

  /** A token opens and closes with a brace. */
  lemma PlaceholderBraces(t: string, n: string)
    ensures IsPlaceholder(t, n) ==> |t| >= 5 && t[0] == '{' && t[|t| - 1] == '}'
  {
    if IsPlaceholder(t, n) {
      var k1: nat, k2: nat :| t == Placeholder(n, k1, k2);
    }
  }

  /** Text without an opening brace is copied verbatim, whatever follows it. */
  lemma {:induction false} SubstituteLiteralPrefix(text: string, rest: string, vars: Vars)
    requires '{' !in text
    ensures Substitute(text + rest, vars) == text + Substitute(rest, vars)
    decreases |text|
  {
    if |text| > 0 {
      var c, text' := text[0], text[1..];
      assert c in text;
      assert forall x :: x in text' ==> x in text;
      assert text + rest == [c] + (text' + rest);
      SubstituteChar(c, text' + rest, vars);
      SubstituteLiteralPrefix(text', rest, vars);
      calc {
        Substitute(text + rest, vars);
        [c] + Substitute(text' + rest, vars);
        [c] + (text' + Substitute(rest, vars));
        ([c] + text') + Substitute(rest, vars);
        { assert text == [c] + text'; }
        text + Substitute(rest, vars);
      }
    } else {
      assert text + rest == rest;
    }
  }

  /** No token occurs anywhere in `s`. */
  ghost predicate NoToken(s: string) {
    forall i, e, n {:trigger IsPlaceholder(s[i..e], n)} :: 0 <= i <= e <= |s| ==> !IsPlaceholder(s[i..e], n)
  }

  lemma NoTokenAtStart(s: string, e: nat, n: string)
    requires NoToken(s) && e <= |s|
    ensures !IsPlaceholder(s[..e], n)
  {
    assert s[0..e] == s[..e];
  }

  lemma NoTokenSuffix(s: string, k: nat)
    requires NoToken(s) && k <= |s|
    ensures NoToken(s[k..])
  {
    var s' := s[k..];
    forall i, e, n | 0 <= i <= e <= |s'|
      ensures !IsPlaceholder(s'[i..e], n)
    {
      assert s'[i..e] == s[i + k..e + k];
    }
  }

  /** A string containing no token anywhere is returned unchanged. */
  lemma {:induction false} SubstituteNoPlaceholder(s: string, vars: Vars)
    requires NoToken(s)
    ensures Substitute(s, vars) == s
    decreases |s|
  {
    if |s| > 0 {
      match MatchPrefix(s)
      case Some(t) =>
        MatchPrefixSound(s);
        NoTokenAtStart(s, t.len, t.name);
        assert false;
      case None =>
        NoTokenSuffix(s, 1);
        SubstituteNoPlaceholder(s[1..], vars);
        assert s == [s[0]] + s[1..];
    }
  }

  /** Text without an opening brace holds no token and is returned unchanged. */
  lemma SubstituteLiteral(s: string, vars: Vars)
    requires '{' !in s
    ensures Substitute(s, vars) == s
  {
    forall i, e, n | 0 <= i <= e <= |s|
      ensures !IsPlaceholder(s[i..e], n)
    {
      PlaceholderBraces(s[i..e], n);
      if i < e {
        assert s[i..e][0] == s[i];
      }
    }
    SubstituteNoPlaceholder(s, vars);
  }

  /**
    Two opening braces followed by anything but a space, a letter or another
    brace do not start a token: the three characters are copied and the scan
    resumes after them (so `{{1x}}` and `{{\tx}}` stay as they are).
   */
  lemma BracesWithoutNameStayLiteral(s: string, vars: Vars)
    requires |s| >= 3 && s[0] == '{' && s[1] == '{'
    requires s[2] != ' ' && s[2] != '{' && !IsLetter(s[2])
    ensures Substitute(s, vars) == s[..3] + Substitute(s[3..], vars)
  {
    NoNameNoToken(s);
    SubstituteNoMatch(s, vars);
    var s1 := s[1..];
    NoBracesNoToken(s1);
    SubstituteNoMatch(s1, vars);
    assert s1[1..] == [s[2]] + s[3..];
    SubstituteChar(s[2], s[3..], vars);
    assert s[..3] == [s[0]] + [s[1]] + [s[2]];
  }

  /** No token starts where the two opening braces are missing. */
  lemma NoBracesNoToken(s: string)
    requires |s| < 2 || s[0] != '{' || s[1] != '{'
    ensures MatchPrefix(s).None?
  {
  }

  /** No token starts where the opening braces are followed by neither a space nor a letter. */
  lemma NoNameNoToken(s: string)
    requires |s| >= 3 && s[2] != ' ' && !IsLetter(s[2])
    ensures MatchPrefix(s).None?
  {
    SkipSpacesExact(s, 2, 2);
  }

  /** Where the scanner finds nothing, the first character is copied and the scan moves on by one. */
  lemma SubstituteNoMatch(s: string, vars: Vars)
    requires |s| > 0 && MatchPrefix(s).None?
    ensures Substitute(s, vars) == [s[0]] + Substitute(s[1..], vars)
  {
  }

  /** Where no token of the grammar starts, the first character is copied and the scan moves on by one. */
  lemma SubstituteUnmatched(s: string, vars: Vars)
    requires |s| > 0
    requires forall e: nat, n {:trigger IsPlaceholder(s[..e], n)} :: e <= |s| ==> !IsPlaceholder(s[..e], n)
    ensures Substitute(s, vars) == [s[0]] + Substitute(s[1..], vars)
  {
    if MatchPrefix(s).Some? {
      MatchPrefixSound(s);
      assert false;
    }
  }

  /** No token starts at any of the first `k` positions of `s`. */
  ghost predicate NoTokenBefore(s: string, k: nat) {
    forall i, e, n {:trigger IsPlaceholder(s[i..e], n)} :: 0 <= i < k && i <= e <= |s| ==> !IsPlaceholder(s[i..e], n)
  }

  /**
    Text in front of `rest` is copied verbatim and in order whenever no token
    starts inside it, whatever braces it holds (a token may still start in
    `rest`, and may not reach back into the text).
   */
  lemma {:induction false} SubstituteCopiesUntokenedText(text: string, rest: string, vars: Vars)
    requires NoTokenBefore(text + rest, |text|)
    ensures Substitute(text + rest, vars) == text + Substitute(rest, vars)
    decreases |text|
  {
    if |text| > 0 {
      var c, text' := text[0], text[1..];
      CopyFirstChar(text, rest, vars);
      NoTokenBeforeShift(text, rest);
      SubstituteCopiesUntokenedText(text', rest, vars);
      calc {
        Substitute(text + rest, vars);
        [c] + Substitute(text' + rest, vars);
        [c] + (text' + Substitute(rest, vars));
        ([c] + text') + Substitute(rest, vars);
        { assert text == [c] + text'; }
        text + Substitute(rest, vars);
      }
    } else {
      assert text + rest == rest;
    }
  }

  lemma CopyFirstChar(text: string, rest: string, vars: Vars)
    requires |text| > 0 && NoTokenBefore(text + rest, |text|)
    ensures Substitute(text + rest, vars) == [text[0]] + Substitute(text[1..] + rest, vars)
  {
    var s := text + rest;
    NoTokenAtFront(s, |text|);
    SubstituteUnmatched(s, vars);
    assert s[0] == text[0] && s[1..] == text[1..] + rest;
  }

  lemma NoTokenAtFront(s: string, k: nat)
    requires 0 < k && NoTokenBefore(s, k)
    ensures forall e: nat, n {:trigger IsPlaceholder(s[..e], n)} :: e <= |s| ==> !IsPlaceholder(s[..e], n)
  {
    forall e: nat, n | e <= |s|
      ensures !IsPlaceholder(s[..e], n)
    {
      assert s[0..e] == s[..e];
    }
  }

  lemma NoTokenBeforeShift(text: string, rest: string)
    requires |text| > 0 && NoTokenBefore(text + rest, |text|)
    ensures NoTokenBefore(text[1..] + rest, |text| - 1)
  {
    var s := text + rest;
    var s1 := text[1..] + rest;
    assert s1 == s[1..];
    forall i, e, n | 0 <= i < |text| - 1 && i <= e <= |s1|
      ensures !IsPlaceholder(s1[i..e], n)
    {
      assert s1[i..e] == s[i + 1..e + 1];
    }
  }

  /** An unknown name is replaced by nothing: the text around the token closes up. */
  lemma UnknownNameVanishes(text: string, name: string, k1: nat, k2: nat, rest: string, vars: Vars)
    requires '{' !in text && ValidName(name) && name !in vars
    ensures Substitute(text + Placeholder(name, k1, k2) + rest, vars) == text + Substitute(rest, vars)
  {
    var p := Placeholder(name, k1, k2);
    assert text + p + rest == text + (p + rest);
    SubstituteLiteralPrefix(text, p + rest, vars);
    SubstitutePlaceholder(name, k1, k2, rest, vars);
    assert Lookup(vars, name) == "";
    assert Substitute(p + rest, vars) == Substitute(rest, vars);
  }

  /** A token of the grammar at the front is replaced by its value, whatever its spacing. */
  lemma SubstituteToken(t: string, name: string, rest: string, vars: Vars)
    requires IsPlaceholder(t, name)
    ensures Substitute(t + rest, vars) == Lookup(vars, name) + Substitute(rest, vars)
  {
    var k1: nat, k2: nat :| t == Placeholder(name, k1, k2);
    SubstitutePlaceholder(name, k1, k2, rest, vars);
  }

  /** A single token between two literal texts: only the token changes. */
  lemma SubstituteOneToken(pre: string, t: string, name: string, post: string, vars: Vars)
    requires '{' !in pre && '{' !in post && IsPlaceholder(t, name)
    ensures Substitute(pre + t + post, vars) == pre + Lookup(vars, name) + post
  {
    var v := Lookup(vars, name);
    calc {
      Substitute(pre + t + post, vars);
      { assert pre + t + post == pre + (t + post); }
      Substitute(pre + (t + post), vars);
      { SubstituteLiteralPrefix(pre, t + post, vars); }
      pre + Substitute(t + post, vars);
      { SubstituteToken(t, name, post, vars); }
      pre + (v + Substitute(post, vars));
      { SubstituteLiteral(post, vars); }
      pre + (v + post);
      { assert pre + (v + post) == pre + v + post; }
      pre + v + post;
    }
  }

  /** Every occurrence of a name gets the same value, whatever the inner spacing of each occurrence. */
  lemma RepeatedNameSameValue(name: string, k1: nat, k2: nat, sep: string, k3: nat, k4: nat, vars: Vars)
    requires ValidName(name) && '{' !in sep
    ensures Substitute(Placeholder(name, k1, k2) + sep + Placeholder(name, k3, k4), vars)
            == Lookup(vars, name) + sep + Lookup(vars, name)
  {
    var p, q := Placeholder(name, k1, k2), Placeholder(name, k3, k4);
    var v := Lookup(vars, name);
    calc {
      Substitute(p + sep + q, vars);
      { assert p + sep + q == p + (sep + q); }
      Substitute(p + (sep + q), vars);
      { SubstitutePlaceholder(name, k1, k2, sep + q, vars); }
      v + Substitute(sep + q, vars);
      { SubstituteLiteralPrefix(sep, q, vars); }
      v + (sep + Substitute(q, vars));
      { SubstitutePlaceholder(name, k3, k4, "", vars); assert q + "" == q; }
      v + (sep + (v + ""));
      v + sep + v;
    }
  }

  /**
    Inserted values are never scanned again: when the value of `name` is
    itself a token, substituting a token for `name` leaves that token in
    the output, unreplaced.
   */
  lemma SubstitutionIsSinglePass(name: string, k1: nat, k2: nat, other: string, vars: Vars)
    requires ValidName(name) && name in vars && IsPlaceholder(vars[name], other)
    ensures IsPlaceholder(Substitute(Placeholder(name, k1, k2), vars), other)
  {
    SubstitutePlaceholder(name, k1, k2, "", vars);
    assert Placeholder(name, k1, k2) + "" == Placeholder(name, k1, k2);
  }
}
