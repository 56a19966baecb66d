/** The header scanner: `parseAPI` cuts one `IMGUI_API` declaration into its
    return type, name, signature and trailing comment, and the line loop
    walks the header as a small state machine (inside an enum or not, inside
    `namespace ImGui` or not, and the brace depth there), collecting enums
    with their fields and function descriptors. */
module Scanner {
  import opened Text
  import opened Signatures

  // ---------------------------------------------------------------------
  // The regular expressions, as abstract matchers

  /** `enum_start`: group 1 (the C++ enum name) and group 2 (the Python name). */
  datatype EnumStartMatch = EnumStartMatch(cppName: string, pyName: string)

  /** `enum_field`: group 1 (the full C++ name), group 2 (the short name) and
      group 5 (the trailing comment, absent when there is none). */
  datatype FieldMatch = FieldMatch(full: string, short: string, doc: Option<string>)

  /** `api_start`: group 1 (the return type), group 3 (the function name) and
      the end of the match, just after the opening parenthesis. */
  datatype ApiStartMatch = ApiStartMatch(ret: string, name: string, end: nat)

  /** The five regular expressions of the generator. The expressions
      themselves are not modelled: any matchers can stand for them. */
  datatype Patterns = Patterns(
    enumStart: string -> Option<EnumStartMatch>,
    enumField: string -> Option<FieldMatch>,
    enumEnd: string -> bool,
    apiStart: string -> Option<ApiStartMatch>,
    arg: ArgPattern)

  // ---------------------------------------------------------------------
  // parseAPI

  /** What `parseAPI` returns: the stripped return type, the name, the
      signature text and the doc comment. */
  datatype Decl = Decl(ret: string, name: string, sig: string, doc: Option<string>)

  /** The index in `rest` of the first parenthesis that closes the one
      `api_start` consumed, searching from `i`; `|rest|` when there is none.
      The counter starts at 1, so that parenthesis is the first position
      where `1 + Depth` of the prefix up to and including it reaches 0. */
  function SigEndFrom(rest: string, i: nat): (j: nat)
    requires i <= |rest|
    ensures i <= j <= |rest|
    ensures j < |rest| ==> rest[j] == ')' && 1 + Depth(rest[..j + 1]) == 0
    ensures forall k :: i <= k < j ==> !(rest[k] == ')' && 1 + Depth(rest[..k + 1]) == 0)
    decreases |rest| - i
  {
    if i == |rest| then i
    else if rest[i] == ')' && 1 + Depth(rest[..i + 1]) == 0 then i
    else SigEndFrom(rest, i + 1)
  }

  function SigEnd(rest: string): nat
  {
    SigEndFrom(rest, 0)
  }

  /** The doc of a declaration: the stripped text after the first `//`, or
      nothing when the remainder has no `//`. */
  function CommentOf(after: string): Option<string>
  {
    var k := Find(after, "//");
    if k == -1 then None else Some(Strip(Tail(after, k + 2)))
  }

  /** `parseAPI` as a function of the line (bindgen.py:125-147). */
  function Declaration(line: string, apiStart: string -> Option<ApiStartMatch>): Option<Decl>
  {
    match apiStart(line)
    case None => None
    case Some(m) =>
      var rest := Tail(line, m.end);
      var j := SigEnd(rest);
      Some(Decl(Strip(m.ret), m.name, rest[..j], CommentOf(Tail(rest, j + 1))))
  }

  /** `parseAPI` (bindgen.py:125-147): the character loop that finds the
      closing parenthesis, then the search for a comment after it. */
  method ParseApi(line: string, apiStart: string -> Option<ApiStartMatch>) returns (r: Option<Decl>)
    ensures r == Declaration(line, apiStart)
  {
    var m := apiStart(line);
    if m.None? {
      return None;
    }
    var rest := Tail(line, m.value.end);
    var sig := SignatureText(rest);
    rest := Tail(rest, |sig| + 1);
    var commentStart := Find(rest, "//");
    var doc := None;
    if commentStart != -1 {
      doc := Some(Strip(Tail(rest, commentStart + 2)));
    }
    return Some(Decl(Strip(m.value.ret), m.value.name, sig, doc));
  }

  /** The character loop of `parseAPI`: the text up to the parenthesis that
      brings the counter, started at 1, to 0. */
  method SignatureText(rest: string) returns (sig: string)
    ensures sig == rest[..SigEnd(rest)]
  {
    var par := 1;
    sig := "";
    var i := 0;
    while i < |rest|
      invariant i <= |rest|
      invariant sig == rest[..i]
      invariant par == 1 + Depth(rest[..i])
      invariant SigEndFrom(rest, i) == SigEnd(rest)
    {
      var c := rest[i];
      assert rest[..i + 1][..i] == rest[..i];
      if c == '(' {
        par := par + 1;
      }
      if c == ')' {
        par := par - 1;
        if par == 0 {
          break;
        }
      }
      sig := sig + [c];
      i := i + 1;
    }
  }

  /** Text whose parentheses all close and never close more than they open. */
  predicate Balanced(s: string)
  {
    Depth(s) == 0 && forall k :: 0 <= k <= |s| ==> Depth(s[..k]) >= 0
  }

  /** Before the closing parenthesis is found, the nesting never drops below
      the level `api_start` opened. */
  lemma {:induction false} SigEndNested(rest: string, k: nat)
    requires k <= SigEnd(rest)
    ensures Depth(rest[..k]) >= 0
  {
    if k > 0 {
      SigEndNested(rest, k - 1);
      assert rest[..k][..k - 1] == rest[..k - 1];
    }
  }

  /** The signature `parseAPI` returns never closes more parentheses than it
      opens; when the closing parenthesis was found, it is balanced. */
  lemma SignatureNested(line: string, apiStart: string -> Option<ApiStartMatch>)
    requires Declaration(line, apiStart).Some?
    ensures var sig := Declaration(line, apiStart).value.sig;
      forall k :: 0 <= k <= |sig| ==> Depth(sig[..k]) >= 0
    ensures var m := apiStart(line).value; var sig := Declaration(line, apiStart).value.sig;
      |sig| < |Tail(line, m.end)| ==> Balanced(sig)
  {
    var m := apiStart(line).value;
    var rest := Tail(line, m.end);
    var j := SigEnd(rest);
    var sig := rest[..j];
    forall k | 0 <= k <= |sig|
      ensures Depth(sig[..k]) >= 0
    {
      assert sig[..k] == rest[..k];
      SigEndNested(rest, k);
    }
    if j < |rest| {
      assert rest[..j + 1][..j] == sig;
    }
  }

  /** The doc is the text after the first `//`: when no `//` starts inside
      `pre` (not even one whose second slash opens the comment), the
      comment of `pre + "//" + text` is `text`, stripped. */
  lemma FirstComment(pre: string, text: string)
    requires !Contains(pre + "/", "//")
    ensures CommentOf(pre + "//" + text) == Some(Strip(text))
  {
    var s := pre + "//" + text;
    var t := pre + "/";
    ContainsIff(t, "//");
    assert OccursAt(s, "//", |pre|);
    forall i | 0 <= i < |pre|
      ensures !OccursAt(s, "//", i)
    {
      assert !OccursAt(t, "//", i);
      assert s[i..i + 2] == t[i..i + 2];
    }
    assert s[|pre| + 2..] == text;
  }

  /** The remainder has a doc exactly when it contains `//`. */
  lemma CommentIff(after: string)
    ensures CommentOf(after).Some? <==> Contains(after, "//")
  {
    ContainsIff(after, "//");
  }

  /** Parsing a declaration built from a balanced signature, its closing
      parenthesis and a tail gives back that signature and the tail's comment. */
  lemma DeclarationRoundTrip(line: string, apiStart: string -> Option<ApiStartMatch>, sig: string, tail: string)
    requires apiStart(line).Some? && apiStart(line).value.end <= |line|
    requires line[apiStart(line).value.end..] == sig + ")" + tail
    requires Balanced(sig)
    ensures var m := apiStart(line).value;
      Declaration(line, apiStart) == Some(Decl(Strip(m.ret), m.name, sig, CommentOf(tail)))
  {
    var m := apiStart(line).value;
    var rest := Tail(line, m.end);
    var n := |sig|;
    assert rest[..n] == sig;
    forall k | 0 <= k < n
      ensures !(rest[k] == ')' && 1 + Depth(rest[..k + 1]) == 0)
    {
      assert rest[..k + 1] == sig[..k + 1];
    }
    assert rest[..n + 1] == sig + ")";
    DepthAppend(sig, ")");
    assert rest[n] == ')' && 1 + Depth(rest[..n + 1]) == 0;
    assert SigEnd(rest) == n;
    assert Tail(rest, n + 1) == tail;
  }

  // ---------------------------------------------------------------------
  // The line loop

  /** A field of an enum: the short name (renamed as in the output), the full
      C++ name and its comment. */
  datatype EnumField = EnumField(name: string, full: string, doc: Option<string>)

  /** An `ImGuiEnum`. */
  datatype EnumDesc = EnumDesc(pyName: string, cppName: string, fields: seq<EnumField>)

  /** The loop's variables: `in_enum`, `in_imgui_namespace`,
      `brace_in_namespace`, `imgui_enums` and `imgui_api_list`. */
  datatype ScanState = ScanState(
    inEnum: bool,
    inNamespace: bool,
    braces: int,
    enums: seq<EnumDesc>,
    apis: seq<FuncDesc>)

  /** What every reachable state satisfies: an open enum has been appended,
      and the brace count inside the namespace is never negative. */
  predicate WellFormed(st: ScanState)
  {
    && (st.inEnum ==> |st.enums| > 0)
    && (st.inNamespace ==> st.braces >= 0)
  }

  const Initial := ScanState(false, false, 0, [], [])

  /** The short name `None` is a Python keyword and becomes `NONE`. */
  function FieldName(short: string): string
  {
    if short == "None" then "NONE" else short
  }

  predicate IsCountName(name: string)
  {
    Lower(name) == "count"
  }

  /** `count` in any letter case: five characters, each the lower- or the
      upper-case letter of `count`. */
  lemma CountNameIff(n: string)
    ensures IsCountName(n) <==> |n| == 5 && forall i :: 0 <= i < 5 ==> n[i] == "count"[i] || n[i] == "COUNT"[i]
  {
    if |n| == 5 {
      var l := Lower(n);
      assert l == "count" <==> forall i :: 0 <= i < 5 ==> l[i] == "count"[i];
    }
  }

  /** Appends a field to the most recently opened enum. */
  function AddField(enums: seq<EnumDesc>, f: EnumField): (r: seq<EnumDesc>)
    requires |enums| > 0
  {
    ExtendLast(enums, [f])
  }

  /** The enums with `fs` appended to the fields of the last one. */
  function ExtendLast(enums: seq<EnumDesc>, fs: seq<EnumField>): seq<EnumDesc>
    requires |enums| > 0
  {
    var last := enums[|enums| - 1];
    enums[..|enums| - 1] + [last.(fields := last.fields + fs)]
  }

  /** Extending the last enum twice is extending it once by both runs. */
  lemma ExtendLastTwice(enums: seq<EnumDesc>, a: seq<EnumField>, b: seq<EnumField>)
    requires |enums| > 0
    ensures ExtendLast(ExtendLast(enums, a), b) == ExtendLast(enums, a + b)
  {
    var n := |enums| - 1;
    var e1 := ExtendLast(enums, a);
    assert e1[..n] == enums[..n];
    assert enums[n].fields + a + b == enums[n].fields + (a + b);
  }

  /** bindgen.py:151-158: outside an enum, an `enum_start` line opens one. */
  function OpenEnum(st: ScanState, line: string, pats: Patterns): ScanState
  {
    if st.inEnum then st
    else
      match pats.enumStart(line)
      case None => st
      case Some(m) => st.(enums := st.enums + [EnumDesc(m.pyName, m.cppName, [])], inEnum := true)
  }

  /** bindgen.py:159-167: inside an enum, a field line adds a field and an
      `enum_end` line closes the enum. `None` stands for the `continue` that
      drops a `count` field and ends the line's processing. */
  function EnumLine(st: ScanState, line: string, pats: Patterns): Option<ScanState>
    requires st.inEnum ==> |st.enums| > 0
  {
    if !st.inEnum then Some(st)
    else
      match pats.enumField(line)
      case Some(f) =>
        var name := FieldName(f.short);
        if IsCountName(name) then None
        else Some(st.(enums := AddField(st.enums, EnumField(name, f.full, f.doc))))
      case None =>
        if pats.enumEnd(line) then Some(st.(inEnum := false)) else Some(st)
  }

  /** A finished `ImGuiApi` object for a parsed declaration. */
  function NewFunc(d: Decl, pat: ArgPattern): FuncDesc
  {
    var p := ParseSignature(d.sig, pat);
    FuncDesc(d.name, d.ret, d.sig, ArgsOf(p), d.doc, p.ok)
  }

  /** bindgen.py:169-190: the namespace part of one line. */
  function NamespaceLine(st: ScanState, line: string, pats: Patterns): ScanState
  {
    if !st.inEnum && !st.inNamespace && Strip(line) == "namespace ImGui" then
      st.(inNamespace := true, braces := 0)
    else if !st.inNamespace || Strip(line) == [] then st
    else
      var b := st.braces + multiset(line)['{'] - multiset(line)['}'];
      if b <= 0 then st.(braces := b, inNamespace := false)
      else
        match Declaration(line, pats.apiStart)
        case None => st.(braces := b)
        case Some(d) => st.(braces := b, apis := st.apis + [NewFunc(d, pats.arg)])
  }

  /** The line is a dropped `count` field: nothing after the enum part runs. */
  predicate Skips(st: ScanState, line: string, pats: Patterns)
    requires WellFormed(st)
  {
    EnumLine(OpenEnum(st, line, pats), line, pats).None?
  }

  /** One pass of the loop body. */
  function Step(st: ScanState, line: string, pats: Patterns): (r: ScanState)
    requires WellFormed(st)
    ensures WellFormed(r)
  {
    var st1 := OpenEnum(st, line, pats);
    match EnumLine(st1, line, pats)
    case None => st1
    case Some(st2) => NamespaceLine(st2, line, pats)
  }

  /** The loop over a sequence of lines. */
  function Run(st: ScanState, lines: seq<string>, pats: Patterns): (r: ScanState)
    requires WellFormed(st)
    ensures WellFormed(r)
    decreases |lines|
  {
    if lines == [] then st
    else Step(Run(st, lines[..|lines| - 1], pats), lines[|lines| - 1], pats)
  }

  /** The whole header, split at newlines. */
  function ScanHeader(header: string, pats: Patterns): ScanState
  {
    Run(Initial, Split(header, '\n'), pats)
  }

  lemma {:induction false} RunAppend(st: ScanState, a: seq<string>, b: seq<string>, pats: Patterns)
    requires WellFormed(st)
    ensures Run(st, a + b, pats) == Run(Run(st, a, pats), b, pats)
    decreases |b|
  {
    if b == [] {
      assert a + b == a;
    } else {
      assert (a + b)[..|a + b| - 1] == a + b[..|b| - 1];
      RunAppend(st, a, b[..|b| - 1], pats);
    }
  }

  // Enum fields

  /** A `count` field is dropped and the line leaves the state as it was. */
  lemma CountFieldDropped(st: ScanState, line: string, pats: Patterns)
    requires WellFormed(st) && st.inEnum
    requires pats.enumField(line).Some? && IsCountName(FieldName(pats.enumField(line).value.short))
    ensures Step(st, line, pats) == st
  {
  }

  /** Inside an enum, any other field line appends the field, renamed, to the
      most recently opened enum; the enum stays open. */
  lemma FieldAppended(st: ScanState, line: string, pats: Patterns)
    requires WellFormed(st) && st.inEnum
    requires pats.enumField(line).Some?
    requires !IsCountName(FieldName(pats.enumField(line).value.short))
    ensures var f := pats.enumField(line).value;
      && Step(st, line, pats).enums == AddField(st.enums, EnumField(FieldName(f.short), f.full, f.doc))
      && Step(st, line, pats).inEnum
  {
  }

  /** A line that is not a field but matches `enum_end` closes the enum and
      changes no enum. */
  lemma EnumEndCloses(st: ScanState, line: string, pats: Patterns)
    requires WellFormed(st) && st.inEnum
    requires pats.enumField(line).None? && pats.enumEnd(line)
    ensures !Step(st, line, pats).inEnum && Step(st, line, pats).enums == st.enums
  {
  }

  /** Outside an enum, an `enum_start` line appends a new enum with the
      captured names; earlier enums are untouched. */
  lemma EnumOpens(st: ScanState, line: string, pats: Patterns)
    requires WellFormed(st) && !st.inEnum && pats.enumStart(line).Some?
    ensures var r, m := Step(st, line, pats), pats.enumStart(line).value;
      && |r.enums| == |st.enums| + 1
      && r.enums[..|st.enums|] == st.enums
      && r.enums[|st.enums|].pyName == m.pyName
      && r.enums[|st.enums|].cppName == m.cppName
  {
    var r := Step(st, line, pats);
    var st1 := OpenEnum(st, line, pats);
    assert st1.enums[..|st.enums|] == st.enums;
    match EnumLine(st1, line, pats)
    case None =>
    case Some(st2) =>
      assert r.enums == st2.enums;
      if st2.enums != st1.enums {
        assert st2.enums[..|st.enums|] == st1.enums[..|st.enums|];
      }
  }

  /** The field a line adds inside an enum: none for a line that is not a
      field or is a `count` field, else the renamed field. */
  function LineField(line: string, pats: Patterns): seq<EnumField>
  {
    match pats.enumField(line)
    case None => []
    case Some(f) =>
      var name := FieldName(f.short);
      if IsCountName(name) then [] else [EnumField(name, f.full, f.doc)]
  }

  /** The fields a run of lines inside an enum keeps, in order. */
  function KeptFields(lines: seq<string>, pats: Patterns): seq<EnumField>
  {
    if lines == [] then []
    else KeptFields(lines[..|lines| - 1], pats) + LineField(lines[|lines| - 1], pats)
  }

  /** No kept field is a `count` field or keeps the name `None`. */
  lemma {:induction false} KeptFieldsClean(lines: seq<string>, pats: Patterns)
    ensures forall f :: f in KeptFields(lines, pats) ==> !IsCountName(f.name) && f.name != "None"
    decreases |lines|
  {
    if lines != [] {
      KeptFieldsClean(lines[..|lines| - 1], pats);
    }
  }

  /** Inside an enum, a run of lines none of which closes it (each is a
      field or does not match `enum_end`: the `{` line, comments, blank
      lines) appends exactly the kept fields, in source order, to the most
      recently opened enum, changes no other enum, and leaves the enum open. */
  lemma {:induction false} FieldLines(st: ScanState, lines: seq<string>, pats: Patterns)
    requires WellFormed(st) && st.inEnum
    requires forall i :: 0 <= i < |lines| ==> pats.enumField(lines[i]).Some? || !pats.enumEnd(lines[i])
    ensures var r := Run(st, lines, pats);
      r.inEnum && r.enums == ExtendLast(st.enums, KeptFields(lines, pats))
    decreases |lines|
  {
    if lines == [] {
      var n := |st.enums| - 1;
      assert st.enums[n].fields + [] == st.enums[n].fields;
      assert st.enums == st.enums[..n] + [st.enums[n]];
    } else {
      var init := lines[..|lines| - 1];
      var line := lines[|lines| - 1];
      assert forall i :: 0 <= i < |init| ==> init[i] == lines[i];
      FieldLines(st, init, pats);
      var r0 := Run(st, init, pats);
      assert Run(st, lines, pats) == Step(r0, line, pats);
      FieldLineStep(r0, line, pats);
      ExtendLastTwice(st.enums, KeptFields(init, pats), LineField(line, pats));
    }
  }

  /** One line inside an enum that does not close it appends its kept field,
      if any, to the last enum. */
  lemma FieldLineStep(st: ScanState, line: string, pats: Patterns)
    requires WellFormed(st) && st.inEnum
    requires pats.enumField(line).Some? || !pats.enumEnd(line)
    ensures var r := Step(st, line, pats);
      r.inEnum && r.enums == ExtendLast(st.enums, LineField(line, pats))
  {
    var n := |st.enums| - 1;
    if LineField(line, pats) == [] {
      if pats.enumField(line).Some? {
        CountFieldDropped(st, line, pats);
      } else {
        NamespaceKeepsEnums(st, line, pats);
      }
      assert st.enums[n].fields + [] == st.enums[n].fields;
      assert st.enums == st.enums[..n] + [st.enums[n]];
    } else {
      FieldAppended(st, line, pats);
    }
  }

  /** The namespace part of a line changes neither the enums nor `in_enum`. */
  lemma NamespaceKeepsEnums(st: ScanState, line: string, pats: Patterns)
    ensures var r := NamespaceLine(st, line, pats);
      r.enums == st.enums && r.inEnum == st.inEnum
  {
  }

  // The namespace

  /** Outside every enum and the namespace, the line `namespace ImGui` opens
      the namespace with a brace count of 0 and nothing else happens. */
  lemma NamespaceOpens(st: ScanState, line: string, pats: Patterns)
    requires WellFormed(st) && !st.inEnum && !st.inNamespace
    requires pats.enumStart(line).None? && Strip(line) == "namespace ImGui"
    ensures Step(st, line, pats) == st.(inNamespace := true, braces := 0)
  {
  }

  /** Inside the namespace, a non-blank line that is not a dropped field
      adds its opening and subtracts its closing braces, and the namespace
      stays open exactly while the count is positive. */
  lemma BraceCounting(st: ScanState, line: string, pats: Patterns)
    requires WellFormed(st) && st.inNamespace && !Skips(st, line, pats) && Strip(line) != []
    ensures var r := Step(st, line, pats);
      && r.braces == st.braces + multiset(line)['{'] - multiset(line)['}']
      && (r.inNamespace <==> r.braces > 0)
  {
  }

  /** The line appends its declaration: the namespace is open, the line is
      not a dropped field and not blank, the brace count stays positive and
      `parseAPI` finds a declaration on it. */
  predicate Collects(st: ScanState, line: string, pats: Patterns)
    requires WellFormed(st)
  {
    && st.inNamespace && !Skips(st, line, pats) && Strip(line) != []
    && st.braces + multiset(line)['{'] - multiset(line)['}'] > 0
    && Declaration(line, pats.apiStart).Some?
  }

  /** The namespace part of a line appends the line's declaration exactly
      when the namespace is open, the line is not blank, the count stays
      positive and there is a declaration. */
  lemma NamespaceLineApis(st: ScanState, line: string, pats: Patterns)
    ensures var r := NamespaceLine(st, line, pats);
      r.apis == st.apis +
        (if && st.inNamespace && Strip(line) != []
            && st.braces + multiset(line)['{'] - multiset(line)['}'] > 0
            && Declaration(line, pats.apiStart).Some?
         then [NewFunc(Declaration(line, pats.apiStart).value, pats.arg)] else [])
  {
  }

  /** Functions are collected inside the namespace, and only there: one pass
      of the loop appends the line's declaration if `Collects` holds and
      leaves the list alone otherwise. */
  lemma StepApis(st: ScanState, line: string, pats: Patterns)
    requires WellFormed(st)
    ensures Step(st, line, pats).apis == st.apis +
      (if Collects(st, line, pats) then [NewFunc(Declaration(line, pats.apiStart).value, pats.arg)] else [])
  {
    var st1 := OpenEnum(st, line, pats);
    assert st1.apis == st.apis && st1.inNamespace == st.inNamespace && st1.braces == st.braces;
    var e := EnumLine(st1, line, pats);
    if e.Some? {
      var st2 := e.value;
      assert st2.apis == st.apis && st2.inNamespace == st.inNamespace && st2.braces == st.braces;
      NamespaceLineApis(st2, line, pats);
    }
  }

  /** The indices of the lines whose declaration a run collects, in order. */
  function CollectedLines(st: ScanState, lines: seq<string>, pats: Patterns): (r: seq<nat>)
    requires WellFormed(st)
    ensures forall j :: 0 <= j < |r| ==> r[j] < |lines|
    ensures forall j, j' :: 0 <= j < j' < |r| ==> r[j] < r[j']
    decreases |lines|
  {
    if lines == [] then []
    else
      var n := |lines| - 1;
      CollectedLines(st, lines[..n], pats) + (if Collects(Run(st, lines[..n], pats), lines[n], pats) then [n] else [])
  }

  /** A line is among the collected ones exactly when `Collects` holds for
      it in the state the loop reaches before it. */
  lemma {:induction false} CollectedLinesIff(st: ScanState, lines: seq<string>, pats: Patterns, i: nat)
    requires WellFormed(st) && i < |lines|
    ensures i in CollectedLines(st, lines, pats) <==> Collects(Run(st, lines[..i], pats), lines[i], pats)
    decreases |lines|
  {
    var n := |lines| - 1;
    var init := lines[..n];
    var prior := CollectedLines(st, init, pats);
    var c := Collects(Run(st, init, pats), lines[n], pats);
    var last: seq<nat> := if c then [n] else [];
    assert CollectedLines(st, lines, pats) == prior + last;
    assert i in prior + last <==> i in prior || i in last;
    if i < n {
      assert i !in last;
      CollectedLinesIff(st, init, pats, i);
      assert init[..i] == lines[..i] && init[i] == lines[i];
    } else {
      assert n !in prior;
      assert init == lines[..i];
    }
  }

  /** The loop keeps the functions it had and appends, in source order, the
      declaration of every collected line and of no other line. */
  lemma {:induction false} ApisDeclared(st: ScanState, lines: seq<string>, pats: Patterns)
    requires WellFormed(st)
    ensures var r, idx := Run(st, lines, pats), CollectedLines(st, lines, pats);
      && |r.apis| == |st.apis| + |idx|
      && r.apis[..|st.apis|] == st.apis
      && forall k :: 0 <= k < |idx| ==>
           Declaration(lines[idx[k]], pats.apiStart).Some?
           && r.apis[|st.apis| + k] == NewFunc(Declaration(lines[idx[k]], pats.apiStart).value, pats.arg)
    decreases |lines|
  {
    if lines != [] {
      var n := |lines| - 1;
      var init := lines[..n];
      ApisDeclared(st, init, pats);
      var r0 := Run(st, init, pats);
      var idx0 := CollectedLines(st, init, pats);
      var r := Run(st, lines, pats);
      var idx := CollectedLines(st, lines, pats);
      StepApis(r0, lines[n], pats);
      assert idx[..|idx0|] == idx0;
      forall k | 0 <= k < |idx|
        ensures Declaration(lines[idx[k]], pats.apiStart).Some?
        ensures r.apis[|st.apis| + k] == NewFunc(Declaration(lines[idx[k]], pats.apiStart).value, pats.arg)
      {
        if k < |idx0| {
          assert idx[k] == idx0[k];
          assert lines[idx0[k]] == init[idx0[k]];
          assert r.apis[|st.apis| + k] == r0.apis[|st.apis| + k];
        }
      }
    }
  }

  /** bindgen.py:184-188: a fresh `ImGuiApi` filled in from a parsed
      declaration, returned as the descriptor it ends up as. */
  method BuildApi(d: Decl, pat: ArgPattern) returns (desc: FuncDesc)
    ensures desc == NewFunc(d, pat)
  {
    ghost var p := ParseSignature(d.sig, pat);
    var f := new Api();
    f.rettype := d.ret;
    f.name := d.name;
    f.SetSignature(d.sig, pat);
    assert f.argtypes == p.types && f.argnames == p.names && f.argdefaults == p.defaults;
    f.doc := d.doc;
    desc := f.Desc();
    assert desc == FuncDesc(d.name, d.ret, d.sig, ArgsOf(Parsed(p.types, p.names, p.defaults, p.ok)), d.doc, p.ok);
  }

  // ---------------------------------------------------------------------
  // The loop as it runs: module-level variables updated line by line

  class HeaderScanner {
    var inEnum: bool
    var inNamespace: bool
    var braces: int
    var enums: seq<EnumDesc>
    var apis: seq<FuncDesc>

    function State(): ScanState
      reads this
    {
      ScanState(inEnum, inNamespace, braces, enums, apis)
    }

    /** bindgen.py:114-118, 149. */
    constructor ()
      ensures State() == Initial
    {
      inEnum, inNamespace, braces, enums, apis := false, false, 0, [], [];
    }

    /** bindgen.py:151-158. */
    method OpenEnumOn(line: string, pats: Patterns)
      modifies this
      ensures State() == OpenEnum(old(State()), line, pats)
    {
      if !inEnum {
        var m := pats.enumStart(line);
        if m.Some? {
          enums := enums + [EnumDesc(m.value.pyName, m.value.cppName, [])];
          inEnum := true;
        }
      }
    }

    /** bindgen.py:159-167; `skip` is the `continue` of a dropped field. */
    method EnumLineOn(line: string, pats: Patterns) returns (skip: bool)
      requires inEnum ==> |enums| > 0
      modifies this
      ensures skip <==> EnumLine(old(State()), line, pats).None?
      ensures skip ==> State() == old(State())
      ensures !skip ==> State() == EnumLine(old(State()), line, pats).value
    {
      skip := false;
      if inEnum {
        var m := pats.enumField(line);
        if m.Some? {
          var name := FieldName(m.value.short);
          if Lower(name) == "count" {
            skip := true;
            return;
          }
          var last := enums[|enums| - 1];
          enums := enums[..|enums| - 1] + [last.(fields := last.fields + [EnumField(name, m.value.full, m.value.doc)])];
        } else if pats.enumEnd(line) {
          inEnum := false;
        }
      }
    }

    /** bindgen.py:169-190. */
    method NamespaceLineOn(line: string, pats: Patterns)
      modifies this
      ensures State() == NamespaceLine(old(State()), line, pats)
    {
      if !inEnum && !inNamespace {
        if Strip(line) == "namespace ImGui" {
          inNamespace := true;
          braces := 0;
          return;
        }
      }
      if inNamespace {
        if Strip(line) == [] {
          return;
        }
        braces := braces + multiset(line)['{'];
        braces := braces - multiset(line)['}'];
        if braces <= 0 {
          inNamespace := false;
        }
      }
      if inNamespace {
        var m := ParseApi(line, pats.apiStart);
        if m.Some? {
          var f := BuildApi(m.value, pats.arg);
          apis := apis + [f];
        }
      }
    }

    /** One pass of the loop body (bindgen.py:151-190). */
    method ScanLine(line: string, pats: Patterns)
      requires WellFormed(State())
      modifies this
      ensures State() == Step(old(State()), line, pats)
    {
      OpenEnumOn(line, pats);
      var skip := EnumLineOn(line, pats);
      if skip {
        return;
      }
      NamespaceLineOn(line, pats);
    }

    /** The loop over the header's lines (bindgen.py:150). */
    method Scan(lines: seq<string>, pats: Patterns)
      requires WellFormed(State())
      modifies this
      ensures State() == Run(old(State()), lines, pats)
    {
      ghost var st0 := State();
      for i := 0 to |lines|
        invariant WellFormed(State())
        invariant State() == Run(st0, lines[..i], pats)
      {
        assert lines[..i + 1][..i] == lines[..i];
        ScanLine(lines[i], pats);
      }
      assert lines[..|lines|] == lines;
    }
  }
}
