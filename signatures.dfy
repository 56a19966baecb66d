/** The signature parser: `ImGuiApi.setSignature` splits the text between a
    declaration's parentheses into argument clauses at the commas that are not
    nested in parentheses, parses each clause into a type, a name and a
    default, and decides whether the function can be bound automatically. */
module Signatures {
  import opened Text

  /** What `arg_re` captures from one clause: the type (group 1), the name
      (group 2) and the default expression (group 5, absent without `= ...`). */
  datatype ArgMatch = ArgMatch(typ: string, name: string, default: Option<string>)

  /** `arg_re.match`. The regular expression itself is not modelled; any
      function from a clause to its captures can stand for it. */
  type ArgPattern = string -> Option<ArgMatch>

  /** One argument of a parsed declaration. */
  datatype Arg = Arg(typ: string, name: string, default: Option<string>)

  /** A function descriptor: the finished state of one `ImGuiApi` object. */
  datatype FuncDesc = FuncDesc(
    name: string,
    rettype: string,
    signature: string,
    args: seq<Arg>,
    doc: Option<string>,
    supported: bool)

  // ---------------------------------------------------------------------
  // Splitting at top-level commas

  /** Position `i` of `s` is a comma outside every pair of parentheses. */
  predicate IsSeparator(s: string, i: int)
  {
    0 <= i < |s| && s[i] == ',' && Depth(s[..i]) == 0
  }

  /** All separator positions of `s`. */
  function Separators(s: string): set<int>
  {
    set i | 0 <= i < |s| && IsSeparator(s, i)
  }

  /** `p`, read from nesting depth 0, holds no separator. */
  predicate NoTopComma(p: string)
  {
    forall j :: 0 <= j < |p| ==> !IsSeparator(p, j)
  }

  /** The raw pieces between separators, as the character loop builds them
      before any stripping: `word` gathers characters and a separator
      starts a new piece. */
  function Pieces(s: string): (ps: seq<string>)
    ensures |ps| >= 1
  {
    if s == [] then [[]]
    else
      var ps0 := Pieces(s[..|s| - 1]);
      if IsSeparator(s, |s| - 1) then ps0 + [[]]
      else ps0[..|ps0| - 1] + [ps0[|ps0| - 1] + [s[|s| - 1]]]
  }

  lemma SeparatorOfPrefix(s: string, m: nat, i: int)
    requires m <= |s| && i < m
    ensures IsSeparator(s[..m], i) <==> IsSeparator(s, i)
  {
    if 0 <= i {
      assert s[..m][..i] == s[..i];
    }
  }

  /** Every piece is free of separators, every piece but the last closes all
      the parentheses it opens, and the last carries the nesting of `s`. */
  lemma {:induction false} PiecesShape(s: string)
    ensures forall k :: 0 <= k < |Pieces(s)| ==> NoTopComma(Pieces(s)[k])
    ensures forall k :: 0 <= k < |Pieces(s)| - 1 ==> Depth(Pieces(s)[k]) == 0
    ensures Depth(Pieces(s)[|Pieces(s)| - 1]) == Depth(s)
    decreases |s|
  {
    if s != [] {
      var init, c := s[..|s| - 1], s[|s| - 1];
      assert s == init + [c];
      PiecesShape(init);
      var ps0 := Pieces(init);
      var last := ps0[|ps0| - 1];
      DepthAppend(init, [c]);
      if !IsSeparator(s, |s| - 1) {
        var w := last + [c];
        DepthAppend(last, [c]);
        forall j | 0 <= j < |w|
          ensures !IsSeparator(w, j)
        {
          if j < |last| {
            SeparatorOfPrefix(w, |last|, j);
            assert w[..|last|] == last;
          } else {
            assert w[..j] == last;
          }
        }
      }
    }
  }

  /** Rejoining the pieces with commas gives back the signature. */
  lemma {:induction false} JoinPieces(s: string)
    ensures Join(Pieces(s), ",") == s
    decreases |s|
  {
    if s != [] {
      var init, c := s[..|s| - 1], s[|s| - 1];
      assert s == init + [c];
      JoinPieces(init);
      var ps0 := Pieces(init);
      var ps := Pieces(s);
      if IsSeparator(s, |s| - 1) {
        assert ps[..|ps| - 1] == ps0;
      } else {
        JoinExtendLast(ps0, ",", c);
      }
    }
  }

  /** A text free of separators is a single piece. */
  lemma {:induction false} SinglePiece(p: string)
    requires NoTopComma(p)
    ensures Pieces(p) == [p]
    decreases |p|
  {
    if p != [] {
      var init := p[..|p| - 1];
      forall j | 0 <= j < |init|
        ensures !IsSeparator(init, j)
      {
        SeparatorOfPrefix(p, |init|, j);
      }
      SinglePiece(init);
      assert p == init + [p[|p| - 1]];
    }
  }

  /** After a separator at depth 0, the next piece runs to the end. */
  lemma {:induction false} PiecesAfterSeparator(x: string, q: string)
    requires Depth(x) == 0 && NoTopComma(q)
    ensures Pieces(x + "," + q) == Pieces(x) + [q]
    decreases |q|
  {
    var s := x + "," + q;
    if q == [] {
      assert s[..|s| - 1] == x;
      assert IsSeparator(s, |s| - 1);
    } else {
      var q0, c := q[..|q| - 1], q[|q| - 1];
      forall j | 0 <= j < |q0|
        ensures !IsSeparator(q0, j)
      {
        SeparatorOfPrefix(q, |q0|, j);
      }
      PiecesAfterSeparator(x, q0);
      assert s[..|s| - 1] == x + "," + q0;
      DepthAppend(x + ",", q0);
      DepthAppend(x, ",");
      assert q[..|q0|] == q0;
      assert !IsSeparator(q, |q0|);
      assert !IsSeparator(s, |s| - 1);
      assert q == q0 + [c];
    }
  }

  lemma {:induction false} DepthOfJoin(ps: seq<string>)
    requires forall k :: 0 <= k < |ps| ==> Depth(ps[k]) == 0
    ensures Depth(Join(ps, ",")) == 0
    decreases |ps|
  {
    if |ps| > 1 {
      var init := ps[..|ps| - 1];
      DepthOfJoin(init);
      DepthAppend(Join(init, ","), ",");
      DepthAppend(Join(init, ",") + ",", ps[|ps| - 1]);
    }
  }

  /** The inverse direction: pieces free of separators, all but the last
      balanced, are exactly what splitting their comma-join gives back. */
  lemma {:induction false} PiecesOfJoin(ps: seq<string>)
    requires |ps| >= 1
    requires forall k :: 0 <= k < |ps| ==> NoTopComma(ps[k])
    requires forall k :: 0 <= k < |ps| - 1 ==> Depth(ps[k]) == 0
    ensures Pieces(Join(ps, ",")) == ps
    decreases |ps|
  {
    if |ps| == 1 {
      SinglePiece(ps[0]);
    } else {
      var init, last := ps[..|ps| - 1], ps[|ps| - 1];
      forall k | 0 <= k < |init|
        ensures NoTopComma(init[k]) && Depth(init[k]) == 0
      {
        assert init[k] == ps[k];
      }
      PiecesOfJoin(init);
      DepthOfJoin(init);
      PiecesAfterSeparator(Join(init, ","), last);
      assert Join(ps, ",") == Join(init, ",") + "," + last;
      assert init + [last] == ps;
    }
  }

  lemma SeparatorsSnoc(s: string)
    requires s != []
    ensures Separators(s) == Separators(s[..|s| - 1]) + (if IsSeparator(s, |s| - 1) then {|s| - 1} else {})
  {
    var init := s[..|s| - 1];
    forall i | 0 <= i < |init|
      ensures IsSeparator(s, i) <==> IsSeparator(init, i)
    {
      SeparatorOfPrefix(s, |init|, i);
    }
  }

  /** There is one more piece than there are top-level commas. */
  lemma {:induction false} PiecesCount(s: string)
    ensures |Pieces(s)| == |Separators(s)| + 1
    decreases |s|
  {
    if s != [] {
      var init := s[..|s| - 1];
      PiecesCount(init);
      SeparatorsSnoc(s);
      assert |s| - 1 !in Separators(init);
    }
  }

  /** The clauses `setSignature` hands to `arg_re`: none for a blank
      signature, the whole text when it has no comma at all, and otherwise
      the pieces, every one stripped but the last. */
  function Clauses(sig: string): seq<string>
  {
    if Strip(sig) == [] then []
    else if ',' !in sig then [sig]
    else
      var ps := Pieces(sig);
      StripAllButLast(ps)
  }

  function StripAllButLast(ps: seq<string>): seq<string>
    requires |ps| >= 1
  {
    seq(|ps| - 1, k requires 0 <= k < |ps| - 1 => Strip(ps[k])) + [ps[|ps| - 1]]
  }

  /** The shortcut for a signature without commas agrees with the character
      loop, which would produce the same single piece. */
  lemma ShortcutAgrees(sig: string)
    requires ',' !in sig
    ensures Pieces(sig) == [sig] && Separators(sig) == {}
  {
    SinglePiece(sig);
  }

  /** A non-blank signature has one clause more than it has top-level commas,
      and the clauses are its pieces in order. */
  lemma ClauseCount(sig: string)
    requires Strip(sig) != []
    ensures Clauses(sig) == StripAllButLast(Pieces(sig))
    ensures |Clauses(sig)| == |Separators(sig)| + 1
  {
    PiecesCount(sig);
    if ',' !in sig {
      ShortcutAgrees(sig);
    }
  }

  lemma NoCommaNoSeparator(p: string)
    requires ',' !in p
    ensures NoTopComma(p)
  {
  }

  /** A text with a single comma, nested inside parentheses, has no separator. */
  lemma NestedComma(u: string, v: string)
    requires ',' !in u && ',' !in v && Depth(u) != 0
    ensures NoTopComma(u + "," + v)
  {
    var p := u + "," + v;
    forall j | 0 <= j < |p|
      ensures !IsSeparator(p, j)
    {
      if j < |u| {
        assert p[j] == u[j];
      } else if j == |u| {
        assert p[..j] == u;
      } else {
        assert p[j] == v[j - |u| - 1];
      }
    }
  }

  /** A call with two comma-separated arguments, after a name without
      parentheses, closes what it opens and its comma is nested. */
  lemma CallOfTwo(name: string, x: string, y: string)
    requires '(' !in name && ')' !in name && ',' !in name
    requires '(' !in x && ')' !in x && ',' !in x
    requires '(' !in y && ')' !in y && ',' !in y
    ensures Depth(name + "(" + x + "," + y + ")") == 0
    ensures NoTopComma(name + "(" + x + "," + y + ")")
  {
    var u, v := name + "(" + x, y + ")";
    DepthWithoutParens(name);
    DepthWithoutParens(x);
    DepthWithoutParens(y);
    DepthAppend(name, "(");
    DepthAppend(name + "(", x);
    DepthAppend(u, ",");
    DepthAppend(u + ",", y);
    DepthAppend(u + "," + y, ")");
    assert u + "," + y + ")" == u + "," + v;
    NestedComma(u, v);
  }

  /** The first clause of the example closes its parentheses and its inner
      comma is nested. */
  lemma ExampleFirstClause(a: string)
    requires a == "ImVec2 size = ImVec2(0,0)"
    ensures Depth(a) == 0 && NoTopComma(a)
  {
    var name, zero := "ImVec2 size = ImVec2", "0";
    CallOfTwo(name, zero, zero);
    assert a == name + "(" + zero + "," + zero + ")";
  }

  lemma ExampleJoin(s: string, a: string, b: string)
    requires s == "ImVec2 size = ImVec2(0,0), bool border = false"
    requires a == "ImVec2 size = ImVec2(0,0)" && b == " bool border = false"
    ensures Join([a, b], ",") == s
  {
    assert [a, b][..1] == [a];
  }

  lemma ExamplePieces(s: string, a: string, b: string)
    requires s == "ImVec2 size = ImVec2(0,0), bool border = false"
    requires a == "ImVec2 size = ImVec2(0,0)" && b == " bool border = false"
    ensures Pieces(s) == [a, b]
  {
    ExampleFirstClause(a);
    NoCommaNoSeparator(b);
    ExampleJoin(s, a, b);
    PiecesOfJoin([a, b]);
  }

  /** A signature that starts with a non-blank and has a comma is split by the loop. */
  lemma ClausesOfPieces(sig: string)
    requires sig != [] && !IsSpace(sig[0]) && ',' in sig
    ensures Clauses(sig) == StripAllButLast(Pieces(sig))
  {
    StripFacts(sig);
  }

  /** The example from the header: a constructor call as a default value is
      not cut at its inner comma. The loop strips every clause but the last,
      which keeps its leading space. */
  lemma SplitExample(s: string, a: string, b: string)
    requires s == "ImVec2 size = ImVec2(0,0), bool border = false"
    requires a == "ImVec2 size = ImVec2(0,0)" && b == " bool border = false"
    ensures Clauses(s) == [a, b]
  {
    ExamplePieces(s, a, b);
    assert s[0] == 'I' && s[|a|] == ',';
    ClausesOfPieces(s);
    assert StripAllButLast([a, b]) == [Strip(a), b];
    assert a[0] == 'I' && a[|a| - 1] == ')';
    StripUnchanged(a);
  }

  // ---------------------------------------------------------------------
  // Parsing the clauses and the compatibility gate

  /** The type test of `setSignature`: a pointer must be to `char`, a
      reference must be `const`. */
  predicate Compatible(t: string)
  {
    !(('*' in t && !Contains(t, "char")) || ('&' in t && !Contains(t, "const")))
  }

  lemma CharPointerPasses()
    ensures Compatible("const char*")
  {
    var t := "const char*";
    assert t[6..][..4] == "char";
  }

  lemma IntPointerFails()
    ensures !Compatible("int*")
  {
    ContainsIff("int*", "char");
    assert '*' in "int*";
  }

  lemma ConstReferencePasses()
    ensures Compatible("const ImVec2&")
  {
    var t := "const ImVec2&";
    assert t[..5] == "const";
    assert Contains(t, "const");
    assert forall i :: 0 <= i < |t| ==> t[i] != '*';
  }

  lemma MutableReferenceFails()
    ensures !Compatible("ImVec2&")
  {
    var t := "ImVec2&";
    MissingChar(t, "const", 4);
    assert t[6] == '&';
  }

  /** A clause that sets `supported` to false: `arg_re` does not match it, or
      its stripped type fails the gate. */
  predicate Rejected(c: string, pat: ArgPattern)
  {
    match pat(c)
    case None => true
    case Some(m) => !Compatible(Strip(m.typ))
  }

  /** What the clause loop appends to the three lists, and whether every
      clause was accepted. */
  datatype Parsed = Parsed(types: seq<string>, names: seq<string>, defaults: seq<Option<string>>, ok: bool)

  function ParseClauses(cs: seq<string>, pat: ArgPattern): (p: Parsed)
    ensures |p.types| == |p.names| == |p.defaults| <= |cs|
  {
    if cs == [] then Parsed([], [], [], true)
    else
      var p0 := ParseClauses(cs[..|cs| - 1], pat);
      var c := cs[|cs| - 1];
      match pat(c)
      case None => p0.(ok := false)
      case Some(m) =>
        Parsed(p0.types + [Strip(m.typ)], p0.names + [Strip(m.name)], p0.defaults + [m.default],
               p0.ok && Compatible(Strip(m.typ)))
  }

  /** One step of the clause loop. */
  lemma ParseStep(cs: seq<string>, i: nat, pat: ArgPattern)
    requires i < |cs|
    ensures var p0, p := ParseClauses(cs[..i], pat), ParseClauses(cs[..i + 1], pat);
      match pat(cs[i])
      case None => p == p0.(ok := false)
      case Some(m) =>
        p == Parsed(p0.types + [Strip(m.typ)], p0.names + [Strip(m.name)], p0.defaults + [m.default],
                    p0.ok && Compatible(Strip(m.typ)))
  {
    assert cs[..i + 1][..i] == cs[..i];
  }

  function ParseSignature(sig: string, pat: ArgPattern): Parsed
  {
    ParseClauses(Clauses(sig), pat)
  }

  /** The gate: the signature is rejected if and only if one of its clauses is. */
  lemma {:induction false} GateIff(cs: seq<string>, pat: ArgPattern)
    ensures !ParseClauses(cs, pat).ok <==> exists k :: 0 <= k < |cs| && Rejected(cs[k], pat)
    decreases |cs|
  {
    if cs != [] {
      var init := cs[..|cs| - 1];
      GateIff(init, pat);
      if exists k :: 0 <= k < |init| && Rejected(init[k], pat) {
        var k :| 0 <= k < |init| && Rejected(init[k], pat);
        assert cs[k] == init[k];
      }
      if exists k :: 0 <= k < |cs| && Rejected(cs[k], pat) {
        var k :| 0 <= k < |cs| && Rejected(cs[k], pat);
        if k < |init| {
          assert init[k] == cs[k];
        }
      }
    }
  }

  /** Once a clause is rejected, no later clause makes the function supported again. */
  lemma StaysUnsupported(cs: seq<string>, pat: ArgPattern, k: nat)
    requires k <= |cs| && !ParseClauses(cs[..k], pat).ok
    ensures !ParseClauses(cs, pat).ok
  {
    GateIff(cs[..k], pat);
    var j :| 0 <= j < k && Rejected(cs[..k][j], pat);
    GateIff(cs, pat);
    assert Rejected(cs[j], pat);
  }

  /** When every clause matches, the three lists have one entry per clause,
      in clause order. */
  lemma {:induction false} ListsFollowClauses(cs: seq<string>, pat: ArgPattern)
    requires forall k :: 0 <= k < |cs| ==> pat(cs[k]).Some?
    ensures var p := ParseClauses(cs, pat);
      && |p.types| == |cs|
      && forall k :: 0 <= k < |cs| ==>
           && p.types[k] == Strip(pat(cs[k]).value.typ)
           && p.names[k] == Strip(pat(cs[k]).value.name)
           && p.defaults[k] == pat(cs[k]).value.default
    decreases |cs|
  {
    if cs != [] {
      var init := cs[..|cs| - 1];
      ListsFollowClauses(init, pat);
      var p0 := ParseClauses(init, pat);
      var m := pat(cs[|cs| - 1]).value;
      var p := ParseClauses(cs, pat);
      assert p == Parsed(p0.types + [Strip(m.typ)], p0.names + [Strip(m.name)], p0.defaults + [m.default],
                         p0.ok && Compatible(Strip(m.typ)));
      forall k | 0 <= k < |cs|
        ensures p.types[k] == Strip(pat(cs[k]).value.typ)
        ensures p.names[k] == Strip(pat(cs[k]).value.name)
        ensures p.defaults[k] == pat(cs[k]).value.default
      {
        if k < |init| {
          assert cs[k] == init[k];
        }
      }
    }
  }

  /** A blank signature gives three empty lists and keeps the function supported. */
  lemma BlankSignature(sig: string, pat: ArgPattern)
    requires AllSpace(sig)
    ensures ParseSignature(sig, pat) == Parsed([], [], [], true)
  {
    StripFacts(sig);
  }

  /** One character of the splitting loop: a separator opens a new piece,
      any other character extends the last one. */
  lemma PiecesStep(sig: string, i: nat)
    requires i < |sig|
    ensures Depth(sig[..i + 1]) == Depth(sig[..i]) + Delta(sig[i])
    ensures var ps0 := Pieces(sig[..i]);
      Pieces(sig[..i + 1])
        == if sig[i] == ',' && Depth(sig[..i]) == 0 then ps0 + [[]]
           else ps0[..|ps0| - 1] + [ps0[|ps0| - 1] + [sig[i]]]
    ensures var ps0, ps1 := Pieces(sig[..i]), Pieces(sig[..i + 1]);
      forall k :: 0 <= k < |ps0| - 1 ==> ps1[k] == ps0[k]
  {
    var s := sig[..i + 1];
    assert s[..i] == sig[..i];
    assert s == sig[..i] + [sig[i]];
    DepthAppend(sig[..i], [sig[i]]);
  }

  /** The split loop of `setSignature` (bindgen.py:61-79). */
  method SplitClauses(sig: string) returns (args: seq<string>)
    ensures args == Clauses(sig)
  {
    if Strip(sig) == [] {
      return [];
    } else if ',' !in sig {
      return [sig];
    }
    args := [];
    var word := "";
    var par := 0;
    for i := 0 to |sig|
      invariant par == Depth(sig[..i])
      invariant |args| + 1 == |Pieces(sig[..i])|
      invariant forall k :: 0 <= k < |args| ==> args[k] == Strip(Pieces(sig[..i])[k])
      invariant word == Pieces(sig[..i])[|args|]
    {
      var c := sig[i];
      PiecesStep(sig, i);
      if c == '(' {
        par := par + 1;
      }
      if c == ')' {
        par := par - 1;
      }
      if c == ',' && par == 0 {
        ghost var ps1 := Pieces(sig[..i + 1]);
        assert ps1[|args|] == word;
        args := args + [Strip(word)];
        word := "";
        continue;
      }
      word := word + [c];
    }
    assert sig[..|sig|] == sig;
    args := args + [word];
  }

  function ArgsOf(p: Parsed): seq<Arg>
    requires |p.types| == |p.names| == |p.defaults|
  {
    seq(|p.types|, k requires 0 <= k < |p.types| => Arg(p.types[k], p.names[k], p.defaults[k]))
  }

  /** One `ImGuiApi` object while the scanner fills it in. */
  class Api {
    var name: string
    var doc: Option<string>
    var rettype: string
    var signature: string
    var argtypes: seq<string>
    var argnames: seq<string>
    var argdefaults: seq<Option<string>>
    var supported: bool

    /** The three argument lists stay parallel. */
    ghost predicate Valid()
      reads this
    {
      |argtypes| == |argnames| == |argdefaults|
    }

    constructor ()
      ensures Valid()
      ensures name == [] && doc == Some([]) && rettype == [] && signature == []
      ensures argtypes == [] && argnames == [] && argdefaults == [] && supported
    {
      name, doc, rettype, signature := [], Some([]), [], [];
      argtypes, argnames, argdefaults := [], [], [];
      supported := true;
    }

    /** The body of the clause loop (bindgen.py:80-93): a clause that
        `arg_re` matches adds its stripped type, its stripped name and its
        default; a clause it does not match, or one whose type fails the
        gate, marks the function unsupported. */
    method AddClause(c: string, pat: ArgPattern)
      modifies this
      ensures signature == old(signature) && name == old(name) && doc == old(doc) && rettype == old(rettype)
      ensures match pat(c)
        case None =>
          && argtypes == old(argtypes) && argnames == old(argnames) && argdefaults == old(argdefaults)
          && !supported
        case Some(m) =>
          && argtypes == old(argtypes) + [Strip(m.typ)]
          && argnames == old(argnames) + [Strip(m.name)]
          && argdefaults == old(argdefaults) + [m.default]
          && supported == (old(supported) && Compatible(Strip(m.typ)))
    {
      var m := pat(c);
      if m.Some? {
        var t := Strip(m.value.typ);
        argtypes := argtypes + [t];
        argnames := argnames + [Strip(m.value.name)];
        argdefaults := argdefaults + [m.value.default];
        if !Compatible(t) {
          supported := false;
        }
      } else {
        supported := false;
      }
    }

    /** The clause loop (bindgen.py:80-93) over the clauses in order. */
    method AddClauses(args: seq<string>, pat: ArgPattern)
      modifies this
      ensures signature == old(signature) && name == old(name) && doc == old(doc) && rettype == old(rettype)
      ensures var p := ParseClauses(args, pat);
        && argtypes == old(argtypes) + p.types
        && argnames == old(argnames) + p.names
        && argdefaults == old(argdefaults) + p.defaults
        && supported == (old(supported) && p.ok)
    {
      ghost var t0, n0, d0, s0 := argtypes, argnames, argdefaults, supported;
      for i := 0 to |args|
        invariant signature == old(signature)
        invariant name == old(name) && doc == old(doc) && rettype == old(rettype)
        invariant var p := ParseClauses(args[..i], pat);
          && argtypes == t0 + p.types && argnames == n0 + p.names
          && argdefaults == d0 + p.defaults && supported == (s0 && p.ok)
      {
        ParseStep(args, i, pat);
        AddClause(args[i], pat);
      }
      assert args[..|args|] == args;
    }

    /** bindgen.py:58-93: the lists grow by what the clauses parse to, and
        `supported` can only go from true to false. */
    method SetSignature(sig: string, pat: ArgPattern)
      modifies this
      ensures old(Valid()) ==> Valid()
      ensures signature == sig
      ensures name == old(name) && doc == old(doc) && rettype == old(rettype)
      ensures var p := ParseSignature(sig, pat);
        && argtypes == old(argtypes) + p.types
        && argnames == old(argnames) + p.names
        && argdefaults == old(argdefaults) + p.defaults
        && supported == (old(supported) && p.ok)
    {
      signature := sig;
      var args := SplitClauses(sig);
      AddClauses(args, pat);
    }

    /** The descriptor this object stands for once it is complete. */
    function Desc(): FuncDesc
      reads this
      requires Valid()
    {
      FuncDesc(name, rettype, signature, ArgsOf(Parsed(argtypes, argnames, argdefaults, supported)), doc, supported)
    }
  }
}
