# imgui_pybindgen binding generator, modelled in Dafny

`bindgen.py` reads Dear ImGui's `imgui.h` and writes a C++ file that registers
the library with pybind11. It does three things, each modelled here:

1. **Signature parser** (`ImGuiApi.setSignature`). It splits the text between
   a declaration's parentheses into argument clauses. A comma separates clauses
   only outside parentheses. Each clause is matched by `arg_re` into a type, a
   name and a default. A compatibility gate marks the function unsupported on
   a pointer to a non-`char` type, a non-`const` reference, or a clause that
   does not match.
2. **Header scanner** (`parseAPI` and the line loop). `parseAPI` finds the
   parenthesis that closes a declaration and takes the `//` comment after it
   as the doc. The line loop is a state machine over `in_enum`,
   `in_imgui_namespace` and a brace counter. It collects the enums with their
   fields (dropping `count` fields, renaming `None` to `NONE`) and the
   functions declared inside `namespace ImGui`.
3. **Emitter**. `pyarg` and `docarg` build the keyword-argument and doc text.
   The enums become `py::enum_` blocks. Functions are grouped by name. The loop
   over the export list writes one `m.def` per bindable function (one
   `py::overload_cast` line per supported overload) and reports missing or
   unsupported names.

Files, one module each:

- `text.dfy` (`Text`): the Python `str` operations the script relies on:
  `strip`, `in`, `find`, `lower`, `split`, `join`, and the parenthesis depth
  both character loops count.
- `signatures.dfy` (`Signatures`): the top-level comma split, the clause
  parser with its gate, and the class `Api` standing for an `ImGuiApi` object.
  Its methods update the argument lists in place.
- `scanner.dfy` (`Scanner`): `parseAPI` as a function and as its character
  loop; the line loop as a step function over a state value, with the class
  `HeaderScanner` whose fields are the loop's variables.
- `emitter.dfy` (`Emitter`): escaping and `docarg` as functions, as the
  source writes them with `str.replace` and a format string; `pyarg`, the
  enum blocks, the grouping and the export loop each as a specification
  function plus the loop that builds the text.
- `bindgen.dfy` (`Bindgen`): the tokens of the export list and the whole
  script from header text to output text.

The regular expressions are not re-implemented. `arg_re`, `enum_start`,
`enum_field`, `enum_end` and `api_start` are parameters: any functions from a
line or clause to its captures (`Scanner.Patterns`, `Signatures.ArgPattern`).
Every result holds for all such matchers.

Three behaviours of the code that are easy to misread; the model follows the code:

- The split loop strips every clause except the last (bindgen.py:75 and 79).
  So `ImVec2 size = ImVec2(0,0), bool border = false` splits into
  `ImVec2 size = ImVec2(0,0)` and ` bool border = false`, with a leading
  blank (`Signatures.SplitExample`).
- Functions are parsed inside the namespace even while an enum is open.
  The namespace test at bindgen.py:174-181 does not look at `in_enum`.
- A dropped `count` field line ends that line's processing (`continue` at
  bindgen.py:164). Its braces are therefore not counted for the namespace.

## Model

| member | source | states |
|---|---|---|
| `Text.StripFacts` | bindgen.py:61 | `strip()` is empty exactly for all-whitespace text; otherwise the result neither starts nor ends with whitespace |
| `Text.ContainsIff` | bindgen.py:87-88 | substring `in` holds exactly when the text occurs at some index |
| `Text.Find` | bindgen.py:143 | `find` returns -1 or an index where the text occurs, and no earlier index has an occurrence |
| `Text.SplitJoin` | bindgen.py:150 | joining the parts of `split('\n')` with `'\n'` gives back the header text |
| `Text.SplitPartsFree` | bindgen.py:150 | no line produced by `split('\n')` contains a newline |
| `Signatures.PiecesShape` | bindgen.py:67-79 | no piece contains a top-level comma; every piece but the last closes its parentheses; the last carries the text's open depth |
| `Signatures.JoinPieces` | bindgen.py:67-79 | rejoining the pieces with commas gives back the signature |
| `Signatures.PiecesOfJoin` | bindgen.py:67-79 | conversely, comma-joining pieces that have no top-level comma, all balanced but the last, splits back into exactly those pieces |
| `Signatures.PiecesCount` | bindgen.py:67-79 | there is one piece more than there are commas at depth 0 |
| `Signatures.PiecesStep` | bindgen.py:69-78 | one character of the loop: a depth-0 comma opens a new piece, any other character is appended to the last one, and the depth changes by the character's parenthesis |
| `Signatures.SplitClauses` | bindgen.py:61-79 | the split loop returns exactly the clauses: none for a blank signature, the whole text without a comma, otherwise the pieces with all but the last stripped |
| `Signatures.ShortcutAgrees` | bindgen.py:63-64 | the shortcut for a comma-free signature gives the same single piece the loop would |
| `Signatures.ClauseCount` | bindgen.py:61-79 | a non-blank signature has one clause more than it has top-level commas, in text order |
| `Signatures.CallOfTwo` | bindgen.py:68-74 | a comma inside a call's parentheses is not a separator, and the call closes what it opens |
| `Signatures.ExampleFirstClause` | bindgen.py:66-74 | `ImVec2 size = ImVec2(0,0)` is balanced and its comma is nested |
| `Signatures.ExamplePieces` | bindgen.py:67-79 | the example signature splits into exactly two pieces |
| `Signatures.SplitExample` | bindgen.py:61-79 | the example's clauses are `ImVec2 size = ImVec2(0,0)` and ` bool border = false` |
| `Signatures.CharPointerPasses` | bindgen.py:86-89 | `const char*` passes the gate |
| `Signatures.IntPointerFails` | bindgen.py:86-89 | `int*` fails the gate |
| `Signatures.ConstReferencePasses` | bindgen.py:86-89 | `const ImVec2&` passes the gate |
| `Signatures.MutableReferenceFails` | bindgen.py:86-89 | `ImVec2&` fails the gate |
| `Signatures.ParseClauses` | bindgen.py:80-93 | the three lists have equal length, at most the number of clauses |
| `Signatures.ParseStep` | bindgen.py:80-93 | one clause: no match clears `supported` and adds nothing; a match appends the stripped type, the stripped name and the default, and applies the gate |
| `Signatures.GateIff` | bindgen.py:80-93 | the function ends unsupported if and only if some clause does not match or its type fails the gate |
| `Signatures.StaysUnsupported` | bindgen.py:89-93 | once a clause has cleared `supported`, no later clause sets it again |
| `Signatures.ListsFollowClauses` | bindgen.py:80-85 | when every clause matches, the lists hold one entry per clause, in clause order, with the stripped type, the stripped name and the default |
| `Signatures.BlankSignature` | bindgen.py:61-62 | a blank signature gives three empty lists and keeps the function supported |
| `Signatures.Api.constructor` | bindgen.py:48-56 | a new object has empty name, doc, type and lists, and is supported |
| `Signatures.Api.AddClause` | bindgen.py:80-93 | one clause's effect on the lists and on `supported`, other fields unchanged |
| `Signatures.Api.AddClauses` | bindgen.py:80-93 | the lists grow by exactly what the clauses parse to; `supported` becomes false if any clause is rejected |
| `Signatures.Api.SetSignature` | bindgen.py:58-93 | stores the signature, keeps the lists parallel, extends them by the parse of its clauses, and `supported` only goes from true to false |
| `Scanner.SigEndFrom` | bindgen.py:132-141 | the index found is the first `)` that brings the counter (started at 1) to 0, or the end of the text |
| `Scanner.SignatureText` | bindgen.py:132-141 | the character loop collects exactly the text before that parenthesis |
| `Scanner.ParseApi` | bindgen.py:125-147 | `parseAPI` returns nothing without an `api_start` match, otherwise the stripped return type, the name, the signature and the doc |
| `Scanner.SigEndNested` | bindgen.py:132-141 | before the closing parenthesis, the nesting never drops below the level `api_start` opened |
| `Scanner.SignatureNested` | bindgen.py:132-141 | the signature never closes more than it opens, and is balanced when its closing parenthesis was found |
| `Scanner.FirstComment` | bindgen.py:143-146 | the doc is the stripped text after the first `//`: whatever precedes it, lone slashes included, provided no `//` starts there |
| `Scanner.CommentIff` | bindgen.py:143-146 | there is a doc exactly when the rest of the line contains `//` |
| `Scanner.DeclarationRoundTrip` | bindgen.py:125-147 | a line made of a balanced signature, `)` and a tail parses back to that signature and the tail's comment |
| `Scanner.Step` | bindgen.py:151-190 | one line keeps the state well formed: an open enum exists, and an open namespace has a non-negative count |
| `Scanner.Run` | bindgen.py:150-190 | the loop over the lines keeps the state well formed |
| `Scanner.RunAppend` | bindgen.py:150 | scanning two runs of lines is scanning the first, then the second from where it left off |
| `Scanner.EnumOpens` | bindgen.py:151-158 | outside an enum, an `enum_start` line appends a new enum with the captured names and leaves earlier enums alone |
| `Scanner.CountNameIff` | bindgen.py:163 | a field counts as `count` exactly when it has five characters, each the lower- or upper-case letter of `count` |
| `Scanner.CountFieldDropped` | bindgen.py:159-164 | a field named `count` in any letter case is dropped, and the line changes nothing |
| `Scanner.FieldAppended` | bindgen.py:159-165 | any other field is appended, with `None` renamed to `NONE`, to the most recently opened enum |
| `Scanner.EnumEndCloses` | bindgen.py:166-167 | an `enum_end` line that is not a field closes the enum and changes no enum |
| `Scanner.KeptFieldsClean` | bindgen.py:162-164 | no kept field is a `count` field or keeps the name `None` |
| `Scanner.FieldLines` | bindgen.py:159-167 | inside an enum, a run of lines none of which closes it (fields, the `{` line, comments, blank lines) appends exactly the kept fields, in source order, to the last enum, changes no other enum, and leaves it open |
| `Scanner.NamespaceOpens` | bindgen.py:169-173 | outside enums and the namespace, `namespace ImGui` opens the namespace with a count of 0 |
| `Scanner.BraceCounting` | bindgen.py:174-180 | inside the namespace, a non-blank line adds its `{` and subtracts its `}`; the namespace stays open exactly while the count is positive |
| `Scanner.NamespaceLineApis` | bindgen.py:169-190 | the namespace part of a line appends its declaration exactly when the namespace is open, the line is not blank, the brace count stays positive and `parseAPI` finds a declaration |
| `Scanner.StepApis` | bindgen.py:151-190 | one pass of the loop appends the line's declaration when the namespace is open, the line is not a dropped field or blank, the count stays positive and there is a declaration, and leaves the list alone otherwise |
| `Scanner.CollectedLinesIff` | bindgen.py:150-190 | a line is among those the loop collects exactly when that condition holds in the state reached before it |
| `Scanner.ApisDeclared` | bindgen.py:150-190 | the loop keeps the functions it had and appends the declarations of exactly the collected lines, in source order |
| `Scanner.BuildApi` | bindgen.py:184-188 | a new `ImGuiApi` filled in from a parsed declaration yields that declaration's descriptor |
| `Scanner.HeaderScanner.constructor` | bindgen.py:114-118 | the loop starts outside enums and the namespace, with count 0 and no enums or functions |
| `Scanner.HeaderScanner.OpenEnumOn` | bindgen.py:151-158 | the enum-start part of the loop body updates the variables as the step function says |
| `Scanner.HeaderScanner.EnumLineOn` | bindgen.py:159-167 | the enum part updates the variables as the step function says, and reports the `continue` exactly for a dropped field |
| `Scanner.HeaderScanner.NamespaceLineOn` | bindgen.py:169-190 | the namespace part updates the variables as the step function says |
| `Scanner.HeaderScanner.ScanLine` | bindgen.py:151-190 | the loop body moves the variables from a state to its step |
| `Scanner.HeaderScanner.Scan` | bindgen.py:150-190 | the loop moves the variables to the run over all lines |
| `Emitter.EscapeRoundTrip` | bindgen.py:109 | escaping quotes loses nothing: undoing `\"` gives back the doc (backslashes are not escaped, so a C++ compiler reads a doc holding `\"` or ending in `\` differently) |
| `Emitter.QuotesEscaped` | bindgen.py:109 | every quote in escaped text follows a backslash |
| `Emitter.EscapeWithoutQuotes` | bindgen.py:109 | text without quotes is emitted unchanged |
| `Emitter.DocArgEmpty` | bindgen.py:107-112 | `docarg` is empty exactly for an absent or empty doc |
| `Emitter.DocArgRoundTrip` | bindgen.py:107-112 | otherwise it is `, "` + escaped doc + `"`, from which the doc can be read back |
| `Emitter.PyArgPerArgument` | bindgen.py:96-105 | `pyarg` is empty exactly without arguments; otherwise it is `, py::arg("<name>")` per argument, in order |
| `Emitter.ArgClauseDefault` | bindgen.py:101-103 | ` = <default>` is appended verbatim exactly when the argument has a default |
| `Emitter.PyArgText` | bindgen.py:96-105 | the loop of `pyarg` returns `PyArg` of the arguments |
| `Emitter.EnumsAppend` | bindgen.py:514-523 | the enums are emitted one after another, in order |
| `Emitter.ValueInBlock` | bindgen.py:515-522 | every field's `.value` line occurs in its enum's block |
| `Emitter.FieldEmitted` | bindgen.py:514-523 | every field of every enum has its `.value` line in the enum text |
| `Emitter.EmitValues` | bindgen.py:516-522 | the field loop appends one `.value` line per field, in order |
| `Emitter.EmitEnums` | bindgen.py:514-523 | the enum loop appends each enum's header, values and closing `;` |
| `Emitter.Named` | bindgen.py:192-196 | a group holds only functions declared under its name |
| `Emitter.NamedComplete` | bindgen.py:192-196 | every function declared under a name is in that name's group |
| `Emitter.GroupsAreNamed` | bindgen.py:192-196 | a name is a key exactly when something is declared under it, and its group is exactly those functions |
| `Emitter.InGroupsIff` | bindgen.py:192-196 | a name is a key exactly when some collected function has that name |
| `Emitter.GroupByName` | bindgen.py:192-196 | the grouping loop builds that map |
| `Emitter.OverloadCount` | bindgen.py:535-541 | an overloaded name gets as many `overload_cast` lines as it has supported overloads |
| `Emitter.OverloadLinesSound` | bindgen.py:535-541 | each line is the line of a supported overload |
| `Emitter.OverloadLinesComplete` | bindgen.py:535-541 | every supported overload has its line |
| `Emitter.NoSupportedNoLines` | bindgen.py:536-541 | with no supported overload, no line is written |
| `Emitter.OverloadedReport` | bindgen.py:535-543 | an overloaded name is reported unsupported exactly when none of its overloads is supported, and then emits nothing |
| `Emitter.SingleVariant` | bindgen.py:530-534 | a name declared once is bound with its direct `m.def` exactly when its function is supported, and is reported exactly when it is not |
| `Emitter.OnlySupportedBound` | bindgen.py:526-543 | a token writes text only when its name is declared and one of its declarations is supported |
| `Emitter.ExportAppend` | bindgen.py:525-545 | the loop always goes on: two lists of tokens emit the first's text and messages, then the second's |
| `Emitter.NotFoundIff` | bindgen.py:525-545 | "cannot be found" is reported for a name exactly when it is an unmarked, non-empty token absent from the map |
| `Emitter.MarkedTokensSkipped` | bindgen.py:526-527 | bracket-marked and empty tokens emit nothing and report nothing |
| `Emitter.EmitOverloads` | bindgen.py:535-543 | the inner loop appends the overload lines and reports whether a supported overload was seen |
| `Emitter.EmitToken` | bindgen.py:526-545 | one pass of the export loop produces the token's text and messages |
| `Emitter.EmitFunctions` | bindgen.py:525-545 | the export loop appends every token's text and messages, in order |
| `Bindgen.WordEnd` | bindgen.py:525 | a word runs to the first whitespace character or the end of the text |
| `Bindgen.WordsAreWords` | bindgen.py:525 | every export token is non-empty and free of whitespace, so the filter on `''` removes nothing |
| `Bindgen.WordsOfSpaced` | bindgen.py:525 | tokenising words written out with blanks gives those words back |
| `Bindgen.Generate` | bindgen.py:501-548 | the script's output text and messages are those of the header scan, grouping, enum loop and export loop in this order |
| `Bindgen.OutputFrame` | bindgen.py:501-548 | the output starts with the include lines, `bind_imgui_to_py` and the hand-written prefix, and ends with the suffix and the closing brace |
| `Bindgen.FieldInOutput` | bindgen.py:514-523 | every field the scanner keeps has its `.value` line in the output |
| `Bindgen.OnlyMarkedNames` | bindgen.py:525-527 | an export list of only bracket-marked names writes no function and prints nothing |
| `Bindgen.DeclaredNotReported` | bindgen.py:150-545 | a function the scan collects is never reported as not found |
| `Bindgen.NotFoundReported` | bindgen.py:525-545 | a name is reported as not found exactly when it is an unmarked export token and no function in the namespace is declared with it |

## Left out

- Command-line parsing and file I/O (bindgen.py:6-26, 551-552). The header text, the output name and the export list are parameters; the output text is a result.
- The generated header file and its template are not part of this model.
- `manual_impl_pre` and `manual_impl_post` (bindgen.py:252-497) are fixed hand-written C++ text; they are parameters `pre` and `post` that are only concatenated.
- The `export_api_list` literal (bindgen.py:199-250) is data; the model takes the list's text as a parameter and tokenises it.
- The regular expressions (bindgen.py:46, 119-121, 124) are abstract matchers. Their captures are parameters; `arg_re`'s `[\d*]` group is not used by the script and is not modelled.
- The `print` calls: the export loop's messages are a list of `Diagnostic` values; the two messages of `setSignature` (bindgen.py:90, 92) are left out, since they affect nothing else.
- Overload order: each name's group in `imgui_api_map` is a Python set (bindgen.py:195-196), so its order is unspecified. The model keeps declaration order, and no lemma claims an order among overload lines; `OverloadCount`, `OverloadLinesSound` and `OverloadLinesComplete` speak only of which lines appear and how many.
- Object identity: finished `ImGuiApi` objects are never changed again, so the scanner keeps value descriptors (`FuncDesc`) of them. The enums are values in a sequence; the loop only ever changes the last one.
- `Text.IsSpace` follows Python's `str.isspace` for the characters it lists; `Text.Lower` lower-cases ASCII letters only, which is exact for the comparison with `count`.
- The `argtypes` attribute of a group member (bindgen.py:541) is read from the descriptor's argument list; the types are joined with `", "` as in the source.
