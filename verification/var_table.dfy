/**
  Building the raw variable table (the first half of `generator::loadVars`).
  Three sources are overlaid, each later write replacing an earlier one:
  the template's default variables, then the mandatory `name` parameter,
  then every `define` entry in command-line order. A `define` entry is
  `key` or `key=value` with `key` matching `[a-zA-Z][a-zA-Z0-9_]*`; the first
  entry that does not match stops the build with an error.
 */
module VarTable {
  import opened Common

  /** The command-line parameters the table reads: the optional `name` and the `define` entries in order. */
  datatype Params = Params(name: Option<string>, defines: seq<string>)

  /** A parsed `define` entry. */
  datatype Definition = Definition(key: string, value: string)

  const NameRequired: string := "The 'name' parameter is required"

  function InvalidDefinition(raw: string): string {
    "Invalid variable definition '" + raw + "'"
  }

  /**
    Full match of `(?<name>[a-zA-Z][a-zA-Z0-9_]*)(=(?<value>.*))?`. The name
    is the longest run of name characters, since `=` cannot extend it; a bare
    key has the empty value.
   */
  function ParseDefine(raw: string): (r: Option<Definition>)
    ensures r.Some? ==> ValidName(r.value.key)
    ensures r.Some? ==> raw == r.value.key + "=" + r.value.value
                        || (raw == r.value.key && r.value.value == "")
  {
    if |raw| > 0 && IsLetter(raw[0]) then
      var e := SkipNameChars(raw, 1);
      if e == |raw| then Some(Definition(raw, ""))
      else if raw[e] == '=' then Some(Definition(raw[..e], raw[e + 1..]))
      else None
    else
      None
  }

  /** `ParseDefine` accepts exactly the strings `key=value` and `key` with a valid key, and recovers the parts. */
  lemma {:induction false} ParseDefineExact(raw: string, key: string, value: string)
    ensures ParseDefine(raw) == Some(Definition(key, value))
            <==> ValidName(key) && (raw == key + "=" + value || (raw == key && value == ""))
  {
    if ValidName(key) && raw == key + "=" + value {
      assert raw[..|key|] == key;
      assert raw[|key| + 1..] == value;
      SkipNameCharsExact(raw, 1, |key|);
    } else if ValidName(key) && raw == key && value == "" {
      SkipNameCharsExact(raw, 1, |key|);
    }
  }

  /**
    Applies the `define` entries left to right on top of `vars`; the first
    malformed entry ends the build with its error message.
   */
  function ApplyDefines(vars: Vars, defines: seq<string>): (r: Result<Vars, string>)
    ensures r.Failure? <==> exists i :: 0 <= i < |defines| && ParseDefine(defines[i]).None?
    ensures r.Failure? ==>
              exists i :: 0 <= i < |defines| && ParseDefine(defines[i]).None?
                          && r.error == InvalidDefinition(defines[i])
                          && forall j :: 0 <= j < i ==> ParseDefine(defines[j]).Some?
    ensures r.Success? ==> vars.Keys <= r.value.Keys
    decreases |defines|
  {
    if |defines| == 0 then
      Success(vars)
    else
      match ParseDefine(defines[0])
      case None => Failure(InvalidDefinition(defines[0]))
      case Some(d) =>
        var r := ApplyDefines(vars[d.key := d.value], defines[1..]);
        assert forall i :: 1 <= i < |defines| ==> defines[i] == defines[1..][i - 1];
        r
  }

  /** Reference reading of the overlay: the value the last valid `define` of `key` gives, found by scanning from the end. */
  function LastDefinition(defines: seq<string>, key: string): Option<string>
    decreases |defines|
  {
    if |defines| == 0 then None
    else
      var d := ParseDefine(defines[|defines| - 1]);
      if d.Some? && d.value.key == key then Some(d.value.value)
      else LastDefinition(defines[..|defines| - 1], key)
  }

  /** Adding an entry in front only matters for keys that no later entry defines. */
  lemma {:induction false} LastDefinitionCons(x: string, defines: seq<string>, key: string)
    ensures LastDefinition([x] + defines, key)
            == if LastDefinition(defines, key).Some? then LastDefinition(defines, key)
               else if ParseDefine(x).Some? && ParseDefine(x).value.key == key then Some(ParseDefine(x).value.value)
               else None
    decreases |defines|
  {
    var s := [x] + defines;
    if |defines| == 0 {
      assert s == [x];
      assert s[..0] == [];
    } else {
      assert s[|s| - 1] == defines[|defines| - 1];
      assert s[..|s| - 1] == [x] + defines[..|defines| - 1];
      LastDefinitionCons(x, defines[..|defines| - 1], key);
    }
  }

  /**
    The left-to-right overlay agrees with the reference reading: every key
    ends up with the value of its last `define`, or keeps its value in `vars`
    when no entry defines it.
   */
  lemma {:induction false} ApplyDefinesPrecedence(vars: Vars, defines: seq<string>, m: Vars)
    requires ApplyDefines(vars, defines) == Success(m)
    ensures forall k :: k in m <==> k in vars || LastDefinition(defines, k).Some?
    ensures forall k :: k in m ==>
              m[k] == if LastDefinition(defines, k).Some? then LastDefinition(defines, k).value
                      else vars[k]
    decreases |defines|
  {
    if |defines| == 0 {
    } else {
      var d := ParseDefine(defines[0]).value;
      var vars' := vars[d.key := d.value];
      var rest := defines[1..];
      assert defines == [defines[0]] + rest;
      ApplyDefinesPrecedence(vars', rest, m);
      forall k
        ensures LastDefinition(defines, k)
                == if LastDefinition(rest, k).Some? then LastDefinition(rest, k)
                   else if d.key == k then Some(d.value) else None
      {
        LastDefinitionCons(defines[0], rest, k);
      }
    }
  }

  /** The raw table: defaults, then `name`, then the `define` entries (lines 22-46 of `generator::loadVars`, before resolution). */
  function BuildTable(defaults: Vars, params: Params): (r: Result<Vars, string>)
    ensures params.name.None? ==> r == Failure(NameRequired)
    ensures params.name.Some? ==>
              (r.Failure? <==> exists i :: 0 <= i < |params.defines| && ParseDefine(params.defines[i]).None?)
    ensures r.Success? ==> "name" in r.value && defaults.Keys <= r.value.Keys
  {
    if params.name.None? then Failure(NameRequired)
    else ApplyDefines(defaults["name" := params.name.value], params.defines)
  }

  /** Reference statement of the precedence: last `define`, else the `name` parameter for `name`, else the default. */
  function Precedence(defaults: Vars, name: string, defines: seq<string>, key: string): Option<string> {
    if LastDefinition(defines, key).Some? then LastDefinition(defines, key)
    else if key == "name" then Some(name)
    else if key in defaults then Some(defaults[key])
    else None
  }

  /** A successfully built table holds exactly the keys some source supplies, each with the value of the highest-precedence source. */
  lemma BuildTablePrecedence(defaults: Vars, params: Params, m: Vars)
    requires BuildTable(defaults, params) == Success(m)
    ensures params.name.Some?
    ensures forall k :: k in m <==> Precedence(defaults, params.name.value, params.defines, k).Some?
    ensures forall k :: k in m ==> m[k] == Precedence(defaults, params.name.value, params.defines, k).value
  {
    ApplyDefinesPrecedence(defaults["name" := params.name.value], params.defines, m);
  }

  /** `define name=x` beats the `name` parameter. */
  lemma DefineOverridesName(defaults: Vars, name: string, x: string)
    ensures BuildTable(defaults, Params(Some(name), ["name=" + x])) == Success(defaults["name" := x])
  {
    assert ValidName("name") by {
      assert forall i :: 1 <= i < 4 ==> IsNameChar("name"[i]);
    }
    ParseDefineExact("name=" + x, "name", x);
    var ds := ["name=" + x];
    assert ds[1..] == [];
    assert defaults["name" := name]["name" := x] == defaults["name" := x];
    assert ParseDefine(ds[0]) == Some(Definition("name", x));
    assert ApplyDefines(defaults["name" := x], ds[1..]) == Success(defaults["name" := x]);
    assert ApplyDefines(defaults["name" := name], ds) == ApplyDefines(defaults["name" := name]["name" := x], ds[1..]);
  }
}
