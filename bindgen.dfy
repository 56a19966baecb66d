/** The generator as a whole: scan the header, group the functions by name,
    then write the prologue, the hand-written prefix, the enums, one `m.def`
    per exported function, the hand-written suffix and the closing brace
    (bindgen.py:149-196 and 499-548). */
module Bindgen {
  import opened Text
  import opened Signatures
  import opened Scanner
  import opened Emitter

  // ---------------------------------------------------------------------
  // Tokens of the export list (bindgen.py:525)

  /** A token of `str.split()`: non-empty, without whitespace. */
  predicate Word(w: string)
  {
    w != [] && forall k :: 0 <= k < |w| ==> !IsSpace(w[k])
  }

  /** Where the word starting at or before `k` ends: the first whitespace
      character at or after `k`, or the end of the text. */
  function WordEnd(s: string, k: nat): (r: nat)
    requires k <= |s|
    ensures k <= r <= |s|
    ensures forall i :: k <= i < r ==> !IsSpace(s[i])
    ensures r == |s| || IsSpace(s[r])
    decreases |s| - k
  {
    if k == |s| || IsSpace(s[k]) then k else WordEnd(s, k + 1)
  }

  /** `s.split()`: the maximal runs of non-whitespace characters, in order.
      Splitting the list at newlines first and each line at whitespace
      gives the same tokens, since a newline is whitespace. */
  function Words(s: string): seq<string>
    decreases |s|
  {
    if s == [] then []
    else if IsSpace(s[0]) then Words(s[1..])
    else
      var n := WordEnd(s, 0);
      [s[..n]] + Words(s[n..])
  }

  /** Every token is a word, so the loop's filter on `''` removes nothing. */
  lemma {:induction false} WordsAreWords(s: string)
    ensures forall w :: w in Words(s) ==> Word(w)
    decreases |s|
  {
    if s != [] {
      if IsSpace(s[0]) {
        WordsAreWords(s[1..]);
      } else {
        var n := WordEnd(s, 0);
        WordsAreWords(s[n..]);
        assert Words(s) == [s[..n]] + Words(s[n..]);
        assert Word(s[..n]) by {
          forall k | 0 <= k < n
            ensures !IsSpace(s[..n][k])
          {
            assert s[..n][k] == s[k];
          }
        }
      }
    }
  }

  /** Words written one after the other, each followed by a blank. */
  function Spaced(ws: seq<string>): string
  {
    if ws == [] then [] else ws[0] + " " + Spaced(ws[1..])
  }

  lemma {:induction false} WordEndBefore(w: string, rest: string, k: nat)
    requires Word(w) && k <= |w|
    ensures WordEnd(w + " " + rest, k) == |w|
    decreases |w| - k
  {
    var s := w + " " + rest;
    if k < |w| {
      assert s[k] == w[k];
      WordEndBefore(w, rest, k + 1);
    } else {
      assert s[k] == ' ';
    }
  }

  /** Tokenising a list of words written out with blanks gives the words back. */
  lemma {:induction false} WordsOfSpaced(ws: seq<string>)
    requires forall w :: w in ws ==> Word(w)
    ensures Words(Spaced(ws)) == ws
    decreases |ws|
  {
    if ws != [] {
      var w, rest := ws[0], Spaced(ws[1..]);
      var s := w + " " + rest;
      assert Spaced(ws) == s;
      assert w in ws;
      assert s[0] == w[0];
      WordEndBefore(w, rest, 0);
      assert s[..|w|] == w;
      assert s[|w|..] == " " + rest;
      assert (" " + rest)[1..] == rest;
      assert forall v :: v in ws[1..] ==> v in ws;
      WordsOfSpaced(ws[1..]);
      assert ws == [w] + ws[1..];
    }
  }

  // ---------------------------------------------------------------------
  // The output file

  const IncludeHead := "\n#include \""
  const IncludeTail := ".h\"\n#include <imgui.h>\n#include <imgui_stdlib.h>\n\n"
    + "namespace py = pybind11;\n\nvoid bind_imgui_to_py(py::module& m)\n{\n"

  /** The fixed opening of the generated `.cpp` (bindgen.py:501-510). */
  function Prologue(outname: string): string
  {
    IncludeHead + outname + IncludeTail
  }

  /** The text written to the `.cpp` file and the messages printed on the way. */
  datatype Output = Output(cpp: string, messages: seq<Diagnostic>)

  /** The layout of the generated file around the enum and function parts. */
  function Assemble(outname: string, pre: string, enums: string, funcs: string, post: string): string
  {
    Prologue(outname) + pre + enums + funcs + post + "\n}\n"
  }

  /** What the generator produces for a header, the export list, the output
      name, the hand-written prefix and suffix, and the matchers. */
  function Generated(header: string, exportList: string, outname: string, pre: string, post: string,
                     pats: Patterns): Output
  {
    var st := ScanHeader(header, pats);
    var ex := Export(Words(exportList), Groups(st.apis));
    Output(Assemble(outname, pre, EnumsText(st.enums), ex.text, post), ex.diags)
  }

  /** The script from the scan to the finished text. */
  method Generate(header: string, exportList: string, outname: string, pre: string, post: string,
                  pats: Patterns) returns (cpp: string, messages: seq<Diagnostic>)
    ensures Output(cpp, messages) == Generated(header, exportList, outname, pre, post, pats)
  {
    var scanner := new HeaderScanner();
    scanner.Scan(Split(header, '\n'), pats);
    var groups := GroupByName(scanner.apis);
    cpp := Prologue(outname);
    cpp := cpp + pre;
    cpp := EmitEnums(cpp, scanner.enums);
    cpp, messages := EmitFunctions(cpp, Words(exportList), groups);
    cpp := cpp + post;
    cpp := cpp + "\n}\n";
  }

  /** The output opens with the prologue and the prefix, and closes with the
      suffix and the brace that ends `bind_imgui_to_py`. */
  lemma OutputFrame(header: string, exportList: string, outname: string, pre: string, post: string,
                    pats: Patterns)
    ensures var cpp := Generated(header, exportList, outname, pre, post, pats).cpp;
      var head, tail := Prologue(outname) + pre, post + "\n}\n";
      && |head| + |tail| <= |cpp|
      && cpp[..|head|] == head
      && cpp[|cpp| - |tail|..] == tail
  {
    var st := ScanHeader(header, pats);
    var ex := Export(Words(exportList), Groups(st.apis));
    AssembleFrame(outname, pre, EnumsText(st.enums), ex.text, post);
  }

  lemma AssembleFrame(outname: string, pre: string, enums: string, funcs: string, post: string)
    ensures var cpp := Assemble(outname, pre, enums, funcs, post);
      var head, tail := Prologue(outname) + pre, post + "\n}\n";
      && |head| + |tail| <= |cpp|
      && cpp[..|head|] == head
      && cpp[|cpp| - |tail|..] == tail
  {
    var head, mid, tail := Prologue(outname) + pre, enums + funcs, post + "\n}\n";
    assert Assemble(outname, pre, enums, funcs, post) == head + mid + tail;
  }

  /** Every field kept by the scanner has its `.value` line in the output. */
  lemma FieldInOutput(header: string, exportList: string, outname: string, pre: string, post: string,
                      pats: Patterns, i: nat, j: nat)
    requires var st := ScanHeader(header, pats); i < |st.enums| && j < |st.enums[i].fields|
    ensures var st := ScanHeader(header, pats);
      Contains(Generated(header, exportList, outname, pre, post, pats).cpp, ValueLine(st.enums[i].fields[j]))
  {
    var st := ScanHeader(header, pats);
    var ex := Export(Words(exportList), Groups(st.apis));
    var line := ValueLine(st.enums[i].fields[j]);
    var cpp := Generated(header, exportList, outname, pre, post, pats).cpp;
    var enums := EnumsText(st.enums);
    FieldEmitted(st.enums, i, j);
    ContainsIff(enums, line);
    var k :| OccursAt(enums, line, k);
    assert cpp == Assemble(outname, pre, enums, ex.text, post);
    assert cpp == (Prologue(outname) + pre) + enums + (ex.text + post + "\n}\n");
    OccursInContext(cpp, Prologue(outname) + pre, enums, ex.text + post + "\n}\n", line, k);
    ContainsIff(cpp, line);
  }

  /** An export list with nothing but bracket-marked names emits no function
      and prints nothing. */
  lemma OnlyMarkedNames(header: string, exportList: string, outname: string, pre: string, post: string,
                        pats: Patterns)
    requires forall w :: w in Words(exportList) ==> w == [] || w[0] == '['
    ensures var st := ScanHeader(header, pats);
      Generated(header, exportList, outname, pre, post, pats)
        == Output(Assemble(outname, pre, EnumsText(st.enums), [], post), [])
  {
    var st := ScanHeader(header, pats);
    var tokens := Words(exportList);
    forall i | 0 <= i < |tokens|
      ensures tokens[i] == [] || tokens[i][0] == '['
    {
      assert tokens[i] in tokens;
    }
    MarkedTokensSkipped(tokens, Groups(st.apis));
  }

  /** A name is reported as not found exactly when it is an unmarked token of
      the export list and no function of the namespace is declared with it. */
  lemma NotFoundReported(header: string, exportList: string, outname: string, pre: string, post: string,
                         pats: Patterns, name: string)
    ensures var st := ScanHeader(header, pats);
      NotFound(name) in Generated(header, exportList, outname, pre, post, pats).messages
      <==> (name in Words(exportList) && name != [] && name[0] != '['
            && forall i :: 0 <= i < |st.apis| ==> st.apis[i].name != name)
  {
    var st := ScanHeader(header, pats);
    var tokens := Words(exportList);
    NotFoundIff(tokens, Groups(st.apis), name);
    InGroupsIff(st.apis, name);
    WordsAreWords(exportList);
    if name in tokens {
      assert Word(name);
    }
  }

  /** A function the scan collects is never reported as not found, whatever
      the export list. */
  lemma DeclaredNotReported(header: string, exportList: string, outname: string, pre: string, post: string,
                            pats: Patterns, i: nat)
    requires i in CollectedLines(Initial, Split(header, '\n'), pats)
    ensures var d := Declaration(Split(header, '\n')[i], pats.apiStart);
      d.Some? && NotFound(d.value.name) !in Generated(header, exportList, outname, pre, post, pats).messages
  {
    var lines := Split(header, '\n');
    var st := ScanHeader(header, pats);
    var idx := CollectedLines(Initial, lines, pats);
    ApisDeclared(Initial, lines, pats);
    var k :| 0 <= k < |idx| && idx[k] == i;
    var d := Declaration(lines[i], pats.apiStart).value;
    assert st.apis[k].name == d.name;
    NotFoundReported(header, exportList, outname, pre, post, pats, d.name);
  }
}
