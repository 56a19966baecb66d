/** The binding emitter: keyword-argument and doc text for one function
    (`pyarg`, `docarg`), the `py::enum_` blocks, the grouping of functions by
    name into `imgui_api_map`, and the loop over the export list that writes
    one `m.def` per bindable function and reports the rest. */
module Emitter {
  import opened Text
  import opened Signatures
  import opened Scanner

  // ---------------------------------------------------------------------
  // Escaping quotes

  function EscapeChar(c: char): string
  {
    if c == '"' then "\\\"" else [c]
  }

  /** `s.replace('"', '\\"')`: every double quote gets a backslash in front. */
  function Escape(s: string): string
  {
    if s == [] then [] else EscapeChar(s[0]) + Escape(s[1..])
  }

  /** Reads escaped text back: a backslash followed by a quote stands for the quote. */
  function Unescape(r: string): string
  {
    if r == [] then []
    else if |r| >= 2 && r[0] == '\\' && r[1] == '"' then ['"'] + Unescape(r[2..])
    else [r[0]] + Unescape(r[1..])
  }

  lemma EscapeHead(s: string)
    ensures Escape(s) != [] ==> Escape(s)[0] != '"'
  {
  }

  /** Escaping loses nothing: the original text can be read back. */
  lemma {:induction false} EscapeRoundTrip(s: string)
    ensures Unescape(Escape(s)) == s
    decreases |s|
  {
    if s != [] {
      var rest := Escape(s[1..]);
      EscapeRoundTrip(s[1..]);
      EscapeHead(s[1..]);
      if s[0] == '"' {
        assert Escape(s) == "\\\"" + rest;
        assert Escape(s)[2..] == rest;
      } else {
        assert Escape(s) == [s[0]] + rest;
        assert Escape(s)[1..] == rest;
      }
    }
  }

  /** No quote in escaped text is left bare: each follows a backslash. */
  lemma {:induction false} QuotesEscaped(s: string)
    ensures forall i :: 0 <= i < |Escape(s)| && Escape(s)[i] == '"' ==> i > 0 && Escape(s)[i - 1] == '\\'
    decreases |s|
  {
    if s != [] {
      QuotesEscaped(s[1..]);
      EscapeHead(s[1..]);
      var e, rest := Escape(s), Escape(s[1..]);
      var h := EscapeChar(s[0]);
      assert e == h + rest;
      forall i | 0 <= i < |e| && e[i] == '"'
        ensures i > 0 && e[i - 1] == '\\'
      {
        if i >= |h| {
          assert e[i] == rest[i - |h|];
          if i > |h| {
            assert e[i - 1] == rest[i - 1 - |h|];
          }
        }
      }
    }
  }

  /** Text without quotes is emitted as it is. */
  lemma {:induction false} EscapeWithoutQuotes(s: string)
    requires '"' !in s
    ensures Escape(s) == s
    decreases |s|
  {
    if s != [] {
      EscapeWithoutQuotes(s[1..]);
      assert s == [s[0]] + s[1..];
    }
  }

  // ---------------------------------------------------------------------
  // docarg and pyarg

  /** `docarg` (bindgen.py:107-112), and the doc part of an enum value line
      (bindgen.py:518-522): nothing for an absent or empty doc, otherwise the
      escaped doc as a further string argument. */
  function DocArg(doc: Option<string>): string
  {
    if doc.None? || doc.value == [] then [] else ", \"" + Escape(doc.value) + "\""
  }

  /** The doc argument is empty exactly for an absent or empty doc. */
  lemma DocArgEmpty(doc: Option<string>)
    ensures DocArg(doc) == [] <==> (doc.None? || doc.value == [])
  {
  }

  /** The doc can be read back from the text `docarg` produces. */
  lemma DocArgRoundTrip(doc: string)
    requires doc != []
    ensures var r := DocArg(Some(doc));
      && |r| >= 4 && r[..3] == ", \"" && r[|r| - 1] == '"'
      && Unescape(r[3..|r| - 1]) == doc
  {
    var r := DocArg(Some(doc));
    assert r[3..|r| - 1] == Escape(doc);
    EscapeRoundTrip(doc);
  }

  /** The keyword-argument text of one argument: its name, and its default
      written verbatim after ` = ` when it has one. */
  function ArgClause(a: Arg): string
  {
    "py::arg(\"" + a.name + "\")" + (match a.default case None => "" case Some(d) => " = " + d)
  }

  function ArgClauses(args: seq<Arg>): seq<string>
  {
    seq(|args|, k requires 0 <= k < |args| => ArgClause(args[k]))
  }

  /** `pyarg` (bindgen.py:96-105). */
  function PyArg(args: seq<Arg>): string
  {
    if args == [] then [] else ", " + Join(ArgClauses(args), ", ")
  }

  /** Without arguments `pyarg` is empty; otherwise it is `, ` followed by
      each argument's keyword text, in order. */
  lemma PyArgPerArgument(args: seq<Arg>)
    ensures PyArg(args) == [] <==> args == []
    ensures PyArg(args) == Concat(seq(|args|, k requires 0 <= k < |args| => ", " + ArgClause(args[k])))
  {
    if args != [] {
      var cs := ArgClauses(args);
      SepJoin(cs, ", ");
      assert seq(|cs|, k requires 0 <= k < |cs| => ", " + cs[k])
          == seq(|args|, k requires 0 <= k < |args| => ", " + ArgClause(args[k]));
    }
  }

  /** The default is appended exactly when there is one. */
  lemma ArgClauseDefault(a: Arg)
    ensures var head := "py::arg(\"" + a.name + "\")";
      && ArgClause(a)[..|head|] == head
      && (a.default.None? <==> |ArgClause(a)| == |head|)
      && (a.default.Some? ==> ArgClause(a)[|head|..] == " = " + a.default.value)
  {
  }

  /** The loop of `pyarg` (bindgen.py:99-105). */
  method PyArgText(args: seq<Arg>) returns (r: string)
    ensures r == PyArg(args)
  {
    if |args| == 0 {
      return "";
    }
    var parts := [];
    for i := 0 to |args|
      invariant parts == ArgClauses(args)[..i]
    {
      var part := "py::arg(\"" + args[i].name + "\")";
      if args[i].default.Some? {
        part := part + " = " + args[i].default.value;
      }
      assert part == ArgClause(args[i]);
      parts := parts + [part];
    }
    assert parts == ArgClauses(args);
    return ", " + Join(parts, ", ");
  }

  // ---------------------------------------------------------------------
  // Enums (bindgen.py:514-523)

  function ValueLine(f: EnumField): string
  {
    "    .value(\"" + f.name + "\", " + f.full + DocArg(f.doc) + ")\n"
  }

  function ValueLines(fs: seq<EnumField>): seq<string>
  {
    Render(fs, ValueLine)
  }

  function EnumHeader(e: EnumDesc): string
  {
    "  py::enum_<" + e.cppName + ">(m, \"" + e.pyName + "\", py::arithmetic())\n"
  }

  /** One enum: its header, one `.value` line per field in order, and the
      closing `;`. */
  function EnumBlock(e: EnumDesc): string
  {
    EnumHeader(e) + Concat(ValueLines(e.fields)) + "  ;\n\n"
  }

  function EnumBlocks(es: seq<EnumDesc>): seq<string>
  {
    Render(es, EnumBlock)
  }

  /** The text of the enum loop: the blocks of the enums in order. */
  function EnumsText(es: seq<EnumDesc>): string
  {
    Concat(EnumBlocks(es))
  }

  /** The enums are emitted one after the other: the text of two lists is
      the text of the first followed by that of the second. */
  lemma EnumsAppend(a: seq<EnumDesc>, b: seq<EnumDesc>)
    ensures EnumsText(a + b) == EnumsText(a) + EnumsText(b)
  {
    RenderAppend(a, b, EnumBlock);
    ConcatAppend(EnumBlocks(a), EnumBlocks(b));
  }

  lemma ValueInBlock(e: EnumDesc, j: nat) returns (k: nat)
    requires j < |e.fields|
    ensures OccursAt(EnumBlock(e), ValueLine(e.fields[j]), k)
  {
    var lines := ValueLines(e.fields);
    var line := lines[j];
    assert OccursAt(line, line, 0);
    ConcatAround(lines, j);
    OccursInContext(Concat(lines), Concat(lines[..j]), line, Concat(lines[j + 1..]), line, 0);
    var k0 := |Concat(lines[..j])|;
    OccursInContext(EnumBlock(e), EnumHeader(e), Concat(lines), "  ;\n\n", line, k0);
    k := |EnumHeader(e)| + k0;
  }

  /** Every kept field of every enum has its `.value` line in the output. */
  lemma FieldEmitted(es: seq<EnumDesc>, i: nat, j: nat)
    requires i < |es| && j < |es[i].fields|
    ensures Contains(EnumsText(es), ValueLine(es[i].fields[j]))
  {
    var line := ValueLine(es[i].fields[j]);
    var blocks := EnumBlocks(es);
    var k := ValueInBlock(es[i], j);
    ConcatAround(blocks, i);
    OccursInContext(EnumsText(es), Concat(blocks[..i]), blocks[i], Concat(blocks[i + 1..]), line, k);
    ContainsIff(EnumsText(es), line);
  }

  /** The inner loop over one enum's fields. */
  method EmitValues(src0: string, fs: seq<EnumField>) returns (src: string)
    ensures src == src0 + Concat(ValueLines(fs))
  {
    src := src0;
    for j := 0 to |fs|
      invariant src == src0 + Concat(ValueLines(fs[..j]))
    {
      RenderSnoc(fs, ValueLine, j);
      ConcatSnoc(ValueLines(fs[..j]), ValueLine(fs[j]));
      AppendAssoc(src0, Concat(ValueLines(fs[..j])), ValueLine(fs[j]));
      src := src + ValueLine(fs[j]);
    }
    assert fs[..|fs|] == fs;
  }

  /** The enum loop, appending to the output text. */
  method EmitEnums(src0: string, es: seq<EnumDesc>) returns (src: string)
    ensures src == src0 + EnumsText(es)
  {
    src := src0;
    for i := 0 to |es|
      invariant src == src0 + EnumsText(es[..i])
    {
      var e := es[i];
      RenderSnoc(es, EnumBlock, i);
      ConcatSnoc(EnumBlocks(es[..i]), EnumBlock(e));
      var block := EnumHeader(e);
      block := EmitValues(block, e.fields);
      block := block + "  ;\n\n";
      assert block == EnumBlock(e);
      AppendAssoc(src0, EnumsText(es[..i]), block);
      src := src + block;
    }
    assert es[..|es|] == es;
  }

  // ---------------------------------------------------------------------
  // Grouping by name (bindgen.py:192-196)

  /** `imgui_api_map`: each name maps to every function declared with it.
      The source keeps the group as a set of distinct objects; here it is the
      sequence of their descriptors in declaration order. */
  function Groups(apis: seq<FuncDesc>): map<string, seq<FuncDesc>>
  {
    if apis == [] then map[]
    else
      var g := Groups(apis[..|apis| - 1]);
      var a := apis[|apis| - 1];
      g[a.name := (if a.name in g then g[a.name] else []) + [a]]
  }

  /** The functions declared under `name`, in declaration order. */
  function Named(apis: seq<FuncDesc>, name: string): (r: seq<FuncDesc>)
    ensures forall v :: v in r ==> v in apis && v.name == name
  {
    if apis == [] then []
    else
      var a := apis[|apis| - 1];
      Named(apis[..|apis| - 1], name) + (if a.name == name then [a] else [])
  }

  /** Every function declared under `name` is in its group. */
  lemma {:induction false} NamedComplete(apis: seq<FuncDesc>, name: string)
    ensures forall i :: 0 <= i < |apis| && apis[i].name == name ==> apis[i] in Named(apis, name)
    decreases |apis|
  {
    if apis != [] {
      NamedComplete(apis[..|apis| - 1], name);
      forall i | 0 <= i < |apis| - 1
        ensures apis[i] == apis[..|apis| - 1][i]
      {
      }
    }
  }

  /** A name is a key of the map exactly when something is declared under
      it, and its group is exactly the functions declared under it. */
  lemma {:induction false} GroupsAreNamed(apis: seq<FuncDesc>)
    ensures forall n :: n in Groups(apis) <==> Named(apis, n) != []
    ensures forall n :: n in Groups(apis) ==> Groups(apis)[n] == Named(apis, n)
    decreases |apis|
  {
    if apis != [] {
      GroupsAreNamed(apis[..|apis| - 1]);
    }
  }

  /** A name is a key of the map exactly when some function is declared under it. */
  lemma {:induction false} InGroupsIff(apis: seq<FuncDesc>, name: string)
    ensures name in Groups(apis) <==> exists i :: 0 <= i < |apis| && apis[i].name == name
    decreases |apis|
  {
    if apis != [] {
      var init := apis[..|apis| - 1];
      InGroupsIff(init, name);
      if name in Groups(init) {
        var i :| 0 <= i < |init| && init[i].name == name;
        assert apis[i] == init[i];
      }
      if exists i :: 0 <= i < |apis| && apis[i].name == name {
        var i :| 0 <= i < |apis| && apis[i].name == name;
        if i < |init| {
          assert init[i] == apis[i];
        }
      }
    }
  }

  /** The grouping loop. */
  method GroupByName(apis: seq<FuncDesc>) returns (groups: map<string, seq<FuncDesc>>)
    ensures groups == Groups(apis)
  {
    groups := map[];
    for i := 0 to |apis|
      invariant groups == Groups(apis[..i])
    {
      assert apis[..i + 1][..i] == apis[..i];
      var api := apis[i];
      if api.name !in groups {
        groups := groups[api.name := []];
      }
      groups := groups[api.name := groups[api.name] + [api]];
    }
    assert apis[..|apis|] == apis;
  }

  // ---------------------------------------------------------------------
  // The export loop (bindgen.py:525-545)

  /** The messages the loop prints. */
  datatype Diagnostic = NotSupported(name: string) | NotFound(name: string)

  function Supported(v: FuncDesc): bool
  {
    v.supported
  }

  function Types(args: seq<Arg>): seq<string>
  {
    seq(|args|, k requires 0 <= k < |args| => args[k].typ)
  }

  /** The `m.def` line of a name declared once. */
  function DirectDef(name: string, v: FuncDesc): string
  {
    "  m.def(\"" + name + "\", &ImGui::" + name + PyArg(v.args) + DocArg(v.doc) + ");\n"
  }

  /** The `m.def` line of one overload, selected by its argument types. */
  function OverloadDef(name: string, v: FuncDesc): string
  {
    "  m.def(\"" + name + "\", py::overload_cast<" + Join(Types(v.args), ", ") + ">(&ImGui::" + name + ")"
      + PyArg(v.args) + DocArg(v.doc) + ");\n"
  }

  /** One line per supported overload. */
  function OverloadLines(name: string, vs: seq<FuncDesc>): seq<string>
  {
    if vs == [] then []
    else
      var v := vs[|vs| - 1];
      OverloadLines(name, vs[..|vs| - 1]) + (if v.supported then [OverloadDef(name, v)] else [])
  }

  predicate HasSupported(vs: seq<FuncDesc>)
  {
    exists i :: 0 <= i < |vs| && vs[i].supported
  }

  /** What one export token adds to the output and to the printed messages. */
  datatype Emission = Emission(text: string, diags: seq<Diagnostic>)

  function TokenEmission(name: string, groups: map<string, seq<FuncDesc>>): Emission
  {
    if name == [] || name[0] == '[' then Emission([], [])
    else if name !in groups then Emission([], [NotFound(name)])
    else
      var vs := groups[name];
      if |vs| == 1 then
        if vs[0].supported then Emission(DirectDef(name, vs[0]), []) else Emission([], [NotSupported(name)])
      else
        Emission(Concat(OverloadLines(name, vs)), if HasSupported(vs) then [] else [NotSupported(name)])
  }

  /** The whole loop: the tokens' emissions, one after the other. */
  function Export(tokens: seq<string>, groups: map<string, seq<FuncDesc>>): Emission
  {
    if tokens == [] then Emission([], [])
    else
      var e0 := Export(tokens[..|tokens| - 1], groups);
      var e := TokenEmission(tokens[|tokens| - 1], groups);
      Emission(e0.text + e.text, e0.diags + e.diags)
  }

  /** Exactly one `overload_cast` line per supported overload: as many lines
      as supported overloads. */
  lemma {:induction false} OverloadCount(name: string, vs: seq<FuncDesc>)
    ensures |OverloadLines(name, vs)| == |Indices(vs, Supported)|
    decreases |vs|
  {
    if vs != [] {
      OverloadCount(name, vs[..|vs| - 1]);
      IndicesSnoc(vs, Supported);
    }
  }

  /** Each line is the line of a supported overload. */
  lemma {:induction false} OverloadLinesSound(name: string, vs: seq<FuncDesc>)
    ensures forall l :: l in OverloadLines(name, vs) ==>
      exists i :: 0 <= i < |vs| && vs[i].supported && l == OverloadDef(name, vs[i])
    decreases |vs|
  {
    if vs != [] {
      var init := vs[..|vs| - 1];
      OverloadLinesSound(name, init);
      forall l | l in OverloadLines(name, vs)
        ensures exists i :: 0 <= i < |vs| && vs[i].supported && l == OverloadDef(name, vs[i])
      {
        if l in OverloadLines(name, init) {
          var i :| 0 <= i < |init| && init[i].supported && l == OverloadDef(name, init[i]);
          assert vs[i] == init[i];
        } else {
          assert vs[|vs| - 1].supported && l == OverloadDef(name, vs[|vs| - 1]);
        }
      }
    }
  }

  /** Every supported overload's line is among the lines. */
  lemma {:induction false} OverloadLinesComplete(name: string, vs: seq<FuncDesc>)
    ensures forall i :: 0 <= i < |vs| && vs[i].supported ==> OverloadDef(name, vs[i]) in OverloadLines(name, vs)
    decreases |vs|
  {
    if vs != [] {
      var init := vs[..|vs| - 1];
      OverloadLinesComplete(name, init);
      forall i | 0 <= i < |vs| && vs[i].supported
        ensures OverloadDef(name, vs[i]) in OverloadLines(name, vs)
      {
        if i < |init| {
          assert vs[i] == init[i];
        }
      }
    }
  }

  /** Without a supported overload there is no line. */
  lemma {:induction false} NoSupportedNoLines(name: string, vs: seq<FuncDesc>)
    requires !HasSupported(vs)
    ensures OverloadLines(name, vs) == []
    decreases |vs|
  {
    if vs != [] {
      var init := vs[..|vs| - 1];
      forall i | 0 <= i < |init|
        ensures !init[i].supported
      {
        assert init[i] == vs[i];
      }
      NoSupportedNoLines(name, init);
    }
  }

  /** A name with several declarations and no supported one emits nothing
      and is reported; one with a supported overload is not reported. */
  lemma OverloadedReport(name: string, groups: map<string, seq<FuncDesc>>)
    requires name != [] && name[0] != '[' && name in groups && |groups[name]| != 1
    ensures TokenEmission(name, groups).diags == (if HasSupported(groups[name]) then [] else [NotSupported(name)])
    ensures !HasSupported(groups[name]) ==> TokenEmission(name, groups).text == []
  {
    var vs := groups[name];
    if !HasSupported(vs) {
      NoSupportedNoLines(name, vs);
    }
  }

  /** A name declared once is bound directly exactly when its function is
      supported, and reported exactly when it is not. */
  lemma SingleVariant(name: string, groups: map<string, seq<FuncDesc>>)
    requires name != [] && name[0] != '[' && name in groups && |groups[name]| == 1
    ensures var v, e := groups[name][0], TokenEmission(name, groups);
      && (e.text == DirectDef(name, v) <==> v.supported)
      && (e.text == [] <==> !v.supported)
      && (e.diags == [] <==> v.supported)
  {
    var v := groups[name][0];
    assert DirectDef(name, v)[0] == ' ';
  }

  /** Unsupported functions are never bound: a token writes text only when
      its name is declared and some declaration under it is supported. */
  lemma OnlySupportedBound(name: string, groups: map<string, seq<FuncDesc>>)
    ensures TokenEmission(name, groups).text != [] ==> name in groups && HasSupported(groups[name])
  {
    if name != [] && name[0] != '[' && name in groups && |groups[name]| != 1 && !HasSupported(groups[name]) {
      NoSupportedNoLines(name, groups[name]);
    }
  }

  /** The loop always goes on with the next token: the emission of a list of
      tokens is that of its first part followed by that of the rest. */
  lemma {:induction false} ExportAppend(a: seq<string>, b: seq<string>, groups: map<string, seq<FuncDesc>>)
    ensures Export(a + b, groups).text == Export(a, groups).text + Export(b, groups).text
    ensures Export(a + b, groups).diags == Export(a, groups).diags + Export(b, groups).diags
    decreases |b|
  {
    if b == [] {
      assert a + b == a;
    } else {
      assert (a + b)[..|a + b| - 1] == a + b[..|b| - 1];
      ExportAppend(a, b[..|b| - 1], groups);
    }
  }

  /** A name is reported missing exactly when it is an export token that is
      neither empty nor bracket-marked and nothing is declared under it. */
  lemma {:induction false} NotFoundIff(tokens: seq<string>, groups: map<string, seq<FuncDesc>>, name: string)
    ensures NotFound(name) in Export(tokens, groups).diags <==>
      (name in tokens && name != [] && name[0] != '[' && name !in groups)
    decreases |tokens|
  {
    if tokens != [] {
      var init := tokens[..|tokens| - 1];
      NotFoundIff(init, groups, name);
      assert tokens == init + [tokens[|tokens| - 1]];
    }
  }

  /** Bracket-marked tokens and empty tokens change nothing. */
  lemma {:induction false} MarkedTokensSkipped(tokens: seq<string>, groups: map<string, seq<FuncDesc>>)
    requires forall i :: 0 <= i < |tokens| ==> tokens[i] == [] || tokens[i][0] == '['
    ensures Export(tokens, groups) == Emission([], [])
    decreases |tokens|
  {
    if tokens != [] {
      MarkedTokensSkipped(tokens[..|tokens| - 1], groups);
    }
  }

  lemma OverloadStep(name: string, vs: seq<FuncDesc>, j: nat)
    requires j < |vs|
    ensures Concat(OverloadLines(name, vs[..j + 1]))
         == Concat(OverloadLines(name, vs[..j])) + (if vs[j].supported then OverloadDef(name, vs[j]) else [])
  {
    assert vs[..j + 1][..j] == vs[..j];
    if vs[j].supported {
      ConcatSnoc(OverloadLines(name, vs[..j]), OverloadDef(name, vs[j]));
    } else {
      assert OverloadLines(name, vs[..j + 1]) == OverloadLines(name, vs[..j]);
    }
  }

  lemma SupportedStep(vs: seq<FuncDesc>, j: nat)
    requires j < |vs|
    ensures HasSupported(vs[..j + 1]) == (HasSupported(vs[..j]) || vs[j].supported)
  {
    if HasSupported(vs[..j + 1]) && !vs[j].supported {
      var k :| 0 <= k < j + 1 && vs[..j + 1][k].supported;
      assert vs[..j][k] == vs[k];
    }
    if HasSupported(vs[..j]) {
      var k :| 0 <= k < j && vs[..j][k].supported;
      assert vs[..j + 1][k] == vs[k];
    }
    if vs[j].supported {
      assert vs[..j + 1][j] == vs[j];
    }
  }

  /** The inner loop over the variants of an overloaded name. */
  method EmitOverloads(src0: string, name: string, vs: seq<FuncDesc>) returns (src: string, hasSupported: bool)
    ensures src == src0 + Concat(OverloadLines(name, vs))
    ensures hasSupported == HasSupported(vs)
  {
    src := src0;
    hasSupported := false;
    for j := 0 to |vs|
      invariant src == src0 + Concat(OverloadLines(name, vs[..j]))
      invariant hasSupported == HasSupported(vs[..j])
    {
      var v := vs[j];
      OverloadStep(name, vs, j);
      SupportedStep(vs, j);
      if v.supported {
        AppendAssoc(src0, Concat(OverloadLines(name, vs[..j])), OverloadDef(name, v));
        hasSupported := true;
        src := src + OverloadDef(name, v);
      }
    }
    assert vs[..|vs|] == vs;
  }

  /** One pass of the export loop: the output and the messages for one token. */
  method EmitToken(name: string, groups: map<string, seq<FuncDesc>>) returns (text: string, diags: seq<Diagnostic>)
    ensures Emission(text, diags) == TokenEmission(name, groups)
  {
    text, diags := [], [];
    if name == [] || name[0] == '[' {
      return;
    }
    if name in groups {
      var variants := groups[name];
      if |variants| == 1 {
        var v := variants[0];
        if !v.supported {
          diags := [NotSupported(name)];
          return;
        }
        text := DirectDef(name, v);
      } else {
        var hasSupportedVariant;
        text, hasSupportedVariant := EmitOverloads(text, name, variants);
        if !hasSupportedVariant {
          diags := [NotSupported(name)];
        }
      }
    } else {
      diags := [NotFound(name)];
    }
  }

  /** The export loop, appending to the output text and to the messages. */
  method EmitFunctions(src0: string, tokens: seq<string>, groups: map<string, seq<FuncDesc>>)
    returns (src: string, diags: seq<Diagnostic>)
    ensures src == src0 + Export(tokens, groups).text
    ensures diags == Export(tokens, groups).diags
  {
    src, diags := src0, [];
    for i := 0 to |tokens|
      invariant src == src0 + Export(tokens[..i], groups).text
      invariant diags == Export(tokens[..i], groups).diags
    {
      assert tokens[..i + 1][..i] == tokens[..i];
      var text, more := EmitToken(tokens[i], groups);
      AppendAssoc(src0, Export(tokens[..i], groups).text, text);
      src := src + text;
      diags := diags + more;
    }
    assert tokens[..|tokens|] == tokens;
  }
}
