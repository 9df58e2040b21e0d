/**
  The abstract filesystem the generator works on, the few `std::filesystem`
  path operations it uses (POSIX spelling, `/` only), and the line-oriented
  copy of `generateFile`: the template is read with `std::getline` and every
  line is written back substituted and followed by a newline.
 */
module Paths {
  import opened Common
  import opened Substitutor

  /** What a path names: a directory, a regular file (with its text and whether it can be opened for reading), or anything else. */
  datatype Node = Dir | File(content: string, readable: bool) | Other

  /** The filesystem: every existing path and what it names. */
  type Fs = map<string, Node>

  /** `a / b` of `std::filesystem::path`: an absolute `b` replaces `a`, otherwise a separator is added when `a` has a filename. */
  function Join(a: string, b: string): (r: string)
    ensures |b| > 0 && b[0] == '/' ==> r == b
    ensures |r| >= |b|
    ensures (|b| == 0 || b[0] != '/') ==> r[|r| - |b|..] == b
    ensures (|b| == 0 || b[0] != '/') ==>
              r[..|r| - |b|] == (if |a| == 0 || a[|a| - 1] == '/' then a else a + "/")
  {
    if |b| > 0 && b[0] == '/' then b
    else if |a| == 0 || a[|a| - 1] == '/' then a + b
    else a + "/" + b
  }

  /** Index of the last `/` of `p`, if any. */
  function LastSlash(p: string): (r: Option<nat>)
    ensures r.Some? ==> r.value < |p| && p[r.value] == '/'
                        && forall k :: r.value < k < |p| ==> p[k] != '/'
    ensures r.None? ==> forall k :: 0 <= k < |p| ==> p[k] != '/'
    decreases |p|
  {
    if |p| == 0 then None
    else if p[|p| - 1] == '/' then Some(|p| - 1)
    else LastSlash(p[..|p| - 1])
  }

  /** The last `/` is the one at `i` whenever no `/` follows it. */
  lemma {:induction false} LastSlashExact(p: string, i: nat)
    requires i < |p| && p[i] == '/'
    requires forall k :: i < k < |p| ==> p[k] != '/'
    ensures LastSlash(p) == Some(i)
    decreases |p|
  {
    if i < |p| - 1 {
      LastSlashExact(p[..|p| - 1], i);
    }
  }

  function TrimTrailingSlashes(p: string): (r: string)
    ensures |r| <= |p| && r == p[..|r|]
    ensures |r| == 0 || r[|r| - 1] != '/'
    ensures forall k :: |r| <= k < |p| ==> p[k] == '/'
    decreases |p|
  {
    if |p| > 0 && p[|p| - 1] == '/' then TrimTrailingSlashes(p[..|p| - 1]) else p
  }

  /** `path::filename`: what follows the last `/` (empty when the path ends in `/`). */
  function Filename(p: string): (r: string)
    ensures '/' !in r
    ensures |r| <= |p| && p[|p| - |r|..] == r
    ensures |r| == |p| || p[|p| - |r| - 1] == '/'
  {
    match LastSlash(p)
    case None => p
    case Some(i) => p[i + 1..]
  }

  /**
    `path::parent_path`: everything before the last element with the
    separators in between removed; a path without `/` has the empty parent
    and the parent of a path directly under the root is the root.
   */
  function ParentPath(p: string): (r: string)
    ensures r == "/" || (|r| <= |p| && r == p[..|r|])
    ensures |p| > 0 && r != "/" ==> |r| < |p|
    ensures '/' !in p ==> r == ""
  {
    match LastSlash(p)
    case None => ""
    case Some(i) =>
      var d := TrimTrailingSlashes(p[..i]);
      if d == "" then "/" else d
  }

  /**
    The parent path is pinned down by the file name: with `i` the index of
    the `/` before the file name, it is the root when `p[..i]` holds only
    separators, and otherwise `p[..i]` with its trailing separators removed.
   */
  lemma ParentPathExact(p: string)
    requires '/' in p
    ensures var i := |p| - |Filename(p)| - 1;
            var r := ParentPath(p);
            if forall k :: 0 <= k < i ==> p[k] == '/' then r == "/"
            else 0 < |r| <= i && r == p[..|r|] && r[|r| - 1] != '/' && forall k :: |r| <= k < i ==> p[k] == '/'
  {
    var i := LastSlash(p).value;
    assert |Filename(p)| == |p| - i - 1;
    var d := TrimTrailingSlashes(p[..i]);
    assert forall k :: |d| <= k < i ==> p[k] == p[..i][k];
    if d != "" {
      assert d[|d| - 1] == p[|d| - 1];
    }
  }

  /** Splitting a joined path gives back its two parts. */
  lemma ParentFilenameOfJoin(dir: string, name: string)
    requires |dir| > 0 && dir[|dir| - 1] != '/'
    requires '/' !in name
    ensures Join(dir, name) == dir + "/" + name
    ensures ParentPath(dir + "/" + name) == dir
    ensures Filename(dir + "/" + name) == name
  {
    var p := dir + "/" + name;
    LastSlashExact(p, |dir|);
    assert p[..|dir|] == dir;
    assert p[|dir| + 1..] == name;
  }

  /** `std::string::replace(0, n, w)`: the first `n` characters (all of them if there are fewer) become `w`. */
  function ReplacePrefix(s: string, n: nat, w: string): (r: string)
    ensures n <= |s| ==> |r| == |w| + |s| - n && r == w + s[n..]
    ensures |r| >= |w| && r[..|w|] == w
    ensures n >= |s| ==> r == w
  {
    if n <= |s| then w + s[n..] else w
  }

  /** `ReplacePrefix` undoes prepending exactly `n` characters. */
  lemma ReplacePrefixOfPrefixed(base: string, rest: string, w: string)
    ensures ReplacePrefix(base + rest, |base|, w) == w + rest
  {
    assert (base + rest)[|base|..] == rest;
  }

  /** End of the line starting at `i`: the next `\n`, or the end of the text. */
  function LineEnd(t: string, i: nat): (j: nat)
    requires i <= |t|
    ensures i <= j <= |t|
    ensures forall k :: i <= k < j ==> t[k] != '\n'
    ensures j == |t| || t[j] == '\n'
    decreases |t| - i
  {
    if i < |t| && t[i] != '\n' then LineEnd(t, i + 1) else i
  }

  lemma LineEndExact(t: string, i: nat, j: nat)
    requires i <= j <= |t|
    requires forall k :: i <= k < j ==> t[k] != '\n'
    requires j == |t| || t[j] == '\n'
    ensures LineEnd(t, i) == j
  {
  }

  /**
    The lines `while (std::getline(in, line))` reads: the text split at each
    `\n` (which is consumed), a last line without `\n` included, and no
    empty line after a final `\n`.
   */
  function GetLines(t: string): (ls: seq<string>)
    ensures forall k :: 0 <= k < |ls| ==> '\n' !in ls[k]
    ensures |ls| == 0 <==> |t| == 0
    decreases |t|
  {
    if |t| == 0 then []
    else
      var i := LineEnd(t, 0);
      assert forall k :: 0 <= k < i ==> t[..i][k] != '\n';
      if i == |t| then [t]
      else [t[..i]] + GetLines(t[i + 1..])
  }

  /** What the output stream receives: every line followed by `\n`. */
  function JoinLines(ls: seq<string>): (r: string)
    ensures |ls| == 0 <==> r == ""
    ensures |ls| > 0 ==> r[|r| - 1] == '\n'
    decreases |ls|
  {
    if |ls| == 0 then "" else ls[0] + "\n" + JoinLines(ls[1..])
  }

  /** Reading back what was written gives the lines that were written, as long as none contains a `\n`. */
  lemma {:induction false} GetLinesOfJoinLines(ls: seq<string>)
    requires forall k :: 0 <= k < |ls| ==> '\n' !in ls[k]
    ensures GetLines(JoinLines(ls)) == ls
    decreases |ls|
  {
    if |ls| > 0 {
      var t := JoinLines(ls);
      var rest := JoinLines(ls[1..]);
      assert t == ls[0] + "\n" + rest;
      assert t[|ls[0]|] == '\n';
      LineEndExact(t, 0, |ls[0]|);
      assert t[..|ls[0]|] == ls[0];
      assert t[|ls[0]| + 1..] == rest;
      GetLinesOfJoinLines(ls[1..]);
    }
  }

  lemma JoinLinesCons(x: string, ls: seq<string>)
    ensures JoinLines([x] + ls) == x + "\n" + JoinLines(ls)
  {
    assert ([x] + ls)[1..] == ls;
  }

  /** `t` with a `\n` added unless it is empty or already ends in one. */
  function Terminated(t: string): (r: string)
    ensures |r| == 0 <==> |t| == 0
  {
    if |t| == 0 || t[|t| - 1] == '\n' then t else t + "\n"
  }

  lemma TerminatedAfterLine(line: string, rest: string)
    ensures Terminated(line + "\n" + rest) == line + "\n" + Terminated(rest)
  {
    var t := line + "\n" + rest;
    if |rest| > 0 {
      assert t[|t| - 1] == rest[|rest| - 1];
      assert t + "\n" == line + "\n" + (rest + "\n");
    } else {
      assert t == line + "\n";
    }
  }

  /** The lines of a text that starts with a line ended by `\n`: that line, then the lines after it. */
  lemma GetLinesFirst(line: string, rest: string)
    requires '\n' !in line
    ensures GetLines(line + "\n" + rest) == [line] + GetLines(rest)
  {
    var t := line + "\n" + rest;
    LineEndExact(t, 0, |line|);
    assert t[..|line|] == line;
    assert t[|line| + 1..] == rest;
  }

  /** A text without `\n` is one line, written back with a `\n` added. */
  lemma JoinLinesOfSingleLine(t: string)
    requires |t| > 0 && forall k :: 0 <= k < |t| ==> t[k] != '\n'
    ensures JoinLines(GetLines(t)) == Terminated(t)
  {
    LineEndExact(t, 0, |t|);
    assert GetLines(t) == [t];
    JoinLinesCons(t, []);
    assert [t] + [] == [t];
  }

  /** One step of the round trip: a first line ended by `\n`, then a text that already round-trips. */
  lemma JoinLinesOfFirstLine(line: string, rest: string)
    requires '\n' !in line
    requires JoinLines(GetLines(rest)) == Terminated(rest)
    ensures JoinLines(GetLines(line + "\n" + rest)) == Terminated(line + "\n" + rest)
  {
    GetLinesFirst(line, rest);
    JoinLinesCons(line, GetLines(rest));
    TerminatedAfterLine(line, rest);
  }

  /** Splits a non-empty text at its first `\n`, if it has one. */
  lemma FirstLine(t: string) returns (line: string, rest: string, broken: bool)
    requires |t| > 0
    ensures broken ==> '\n' !in line && t == line + "\n" + rest
    ensures !broken ==> forall k :: 0 <= k < |t| ==> t[k] != '\n'
  {
    var i := LineEnd(t, 0);
    broken := i < |t|;
    line, rest := t[..i], if broken then t[i + 1..] else "";
    if broken {
      assert t == line + "\n" + rest;
    }
  }

  /** Writing back what was read reproduces the text, with a `\n` added when the last line had none. */
  lemma {:induction false} JoinLinesOfGetLines(t: string)
    ensures JoinLines(GetLines(t)) == Terminated(t)
    decreases |t|
  {
    if |t| > 0 {
      var line, rest, broken := FirstLine(t);
      if broken {
        JoinLinesOfGetLines(rest);
        JoinLinesOfFirstLine(line, rest);
      } else {
        JoinLinesOfSingleLine(t);
      }
    }
  }

  /** Every line of `ls`, substituted. */
  function SubstituteLines(ls: seq<string>, vars: Vars): (r: seq<string>)
    ensures |r| == |ls|
    ensures forall k :: 0 <= k < |ls| ==> r[k] == Substitute(ls[k], vars)
  {
    seq(|ls|, k requires 0 <= k < |ls| => Substitute(ls[k], vars))
  }

  /** The text `generateFile` writes for a template whose text is `text`. */
  function CopyText(text: string, vars: Vars): string {
    JoinLines(SubstituteLines(GetLines(text), vars))
  }

  /** No table value spans two lines. */
  predicate SingleLineValues(vars: Vars) {
    forall k :: k in vars ==> '\n' !in vars[k]
  }

  /** Substitution cannot introduce a line break that neither the line nor a value had. */
  lemma {:induction false} SubstituteKeepsSingleLine(s: string, vars: Vars)
    requires '\n' !in s && SingleLineValues(vars)
    ensures '\n' !in Substitute(s, vars)
    decreases |s|
  {
    if |s| > 0 {
      match MatchPrefix(s)
      case Some(t) =>
        assert '\n' !in s[t.len..];
        SubstituteKeepsSingleLine(s[t.len..], vars);
      case None =>
        assert '\n' !in s[1..];
        SubstituteKeepsSingleLine(s[1..], vars);
    }
  }

  /** The copy has one line per template line, each the substituted template line. */
  lemma CopyTextLines(text: string, vars: Vars)
    requires SingleLineValues(vars)
    ensures GetLines(CopyText(text, vars)) == SubstituteLines(GetLines(text), vars)
  {
    var ls := SubstituteLines(GetLines(text), vars);
    forall k | 0 <= k < |ls|
      ensures '\n' !in ls[k]
    {
      SubstituteKeepsSingleLine(GetLines(text)[k], vars);
    }
    GetLinesOfJoinLines(ls);
  }

  /** A template without `{` is copied verbatim, with a final `\n` added when it lacked one. */
  lemma CopyTextLiteral(text: string, vars: Vars)
    requires '{' !in text
    ensures CopyText(text, vars) == Terminated(text)
  {
    var ls := GetLines(text);
    assert SubstituteLines(ls, vars) == ls by {
      forall k | 0 <= k < |ls|
        ensures Substitute(ls[k], vars) == ls[k]
      {
        GetLinesAreSlices(text, k);
        SubstituteLiteral(ls[k], vars);
      }
    }
    JoinLinesOfGetLines(text);
  }

  /** Every character of a line comes from the text. */
  lemma {:induction false} GetLinesAreSlices(t: string, k: nat)
    requires k < |GetLines(t)|
    ensures forall c :: c in GetLines(t)[k] ==> c in t
    decreases |t|
  {
    var i := LineEnd(t, 0);
    if i < |t| && k > 0 {
      GetLinesAreSlices(t[i + 1..], k - 1);
    }
  }

  /** `create_directory` and the copy into a new file succeed exactly when the parent directory exists. */
  predicate CanCreate(fs: Fs, p: string) {
    ParentPath(p) in fs && fs[ParentPath(p)].Dir?
  }
}
