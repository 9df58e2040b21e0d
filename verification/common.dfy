/**
  Shared vocabulary of the scaffolder model: optional values, results, the
  variable table and the grammar of variable names `[A-Za-z][A-Za-z0-9_]*`
  that both the placeholder pattern and the `define` pattern use.
 */
module Common {

  datatype Option<+T> = None | Some(value: T)

  datatype Result<+T, +E> = Success(value: T) | Failure(error: E)

  /** The `variables_map` of the source: variable name to value. */
  type Vars = map<string, string>

  /** Value of `name` in the table, or the empty string when it is absent. */
  function Lookup(vars: Vars, name: string): (r: string)
    ensures name in vars ==> r == vars[name]
    ensures name !in vars ==> r == ""
  {
    if name in vars then vars[name] else ""
  }

  predicate IsLetter(c: char) {
    'a' <= c <= 'z' || 'A' <= c <= 'Z'
  }

  predicate IsNameChar(c: char) {
    IsLetter(c) || '0' <= c <= '9' || c == '_'
  }

  /** `[A-Za-z][A-Za-z0-9_]*` as a whole-string property. */
  predicate ValidName(s: string) {
    |s| > 0 && IsLetter(s[0]) && forall i :: 1 <= i < |s| ==> IsNameChar(s[i])
  }

  /** End of the longest run of name characters starting at `i` (greedy `[A-Za-z0-9_]*`). */
  function SkipNameChars(s: string, i: nat): (j: nat)
    requires i <= |s|
    ensures i <= j <= |s|
    ensures forall k :: i <= k < j ==> IsNameChar(s[k])
    ensures j == |s| || !IsNameChar(s[j])
    decreases |s| - i
  {
    if i < |s| && IsNameChar(s[i]) then SkipNameChars(s, i + 1) else i
  }

  /** Any index range of name characters followed by a non-name character is what `SkipNameChars` finds. */
  lemma SkipNameCharsExact(s: string, i: nat, j: nat)
    requires i <= j <= |s|
    requires forall k :: i <= k < j ==> IsNameChar(s[k])
    requires j == |s| || !IsNameChar(s[j])
    ensures SkipNameChars(s, i) == j
  {
  }
}
