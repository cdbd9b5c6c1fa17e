/** The HTML report of `compareFiles` (app.js lines 97-111): the file name and
    a line break, one span per diff tuple, then a fixed style block. Tuple text
    is inserted as it is, without escaping. */
module DiffReport {

  import opened Sequences

  /** One tuple of the diff result: `op` is 0 (unchanged), 1 (added) or -1
      (removed); `text` is the run of characters it covers. */
  datatype Edit = Edit(op: int, text: string)

  /** The ops the renderer recognises; any other op contributes nothing. */
  predicate IsKnownOp(op: int)
  {
    op == 0 || op == 1 || op == -1
  }

  function KnownEdit(e: Edit): bool
  {
    IsKnownOp(e.op)
  }

  /** The closing tag after every recognised tuple's text. */
  function Close(): string
  {
    "</span>"
  }

  /** The style block appended after the last span (lines 105-111), verbatim. */
  function StyleBlock(): string
  {
    "\n      <style>\n"
    + "        * { color:grey; font-size:1rem; font-weight:normal; }\n"
    + "        .added { background:green; color:white; font-weight:bold; font-family:monospace; padding:0 .2em; }\n"
    + "        .removed { background:red; color:white; font-weight:bold; text-decoration:line-through;font-family:monospace; padding:0 .2em; }\n"
    + "      </style>\n    "
  }

  /** The opening tag lines 101-103 put before a recognised tuple's text. */
  function Opening(op: int): string
  {
    if op == 0 then "<span></span>" else if op == 1 then "<span class=\"added\">" else "<span class=\"removed\">"
  }

  /** What lines 101-103 append for one tuple. The unchanged case opens an
      empty span and then closes a second one, exactly as written. */
  function Fragment(e: Edit): string
  {
    if IsKnownOp(e.op) then Opening(e.op) + e.text + Close() else ""
  }

  /** Length of what precedes the text in a fragment. */
  function OpenLength(op: int): nat
  {
    if IsKnownOp(op) then |Opening(op)| else 0
  }

  /** Length of the fixed characters around the text in a fragment. */
  function WrapperLength(op: int): nat
  {
    if IsKnownOp(op) then OpenLength(op) + |Close()| else 0
  }

  /** The fragments of all tuples, in tuple order. */
  function Body(edits: seq<Edit>): string
  {
    FlatMap(edits, Fragment)
  }

  /** The report's layout with any trailing block: the file name, a line
      break, the body, then `style`. */
  function Layout(fileName: string, edits: seq<Edit>, style: string): string
  {
    fileName + "\n" + Body(edits) + style
  }

  /** The whole report for one file. */
  function Report(fileName: string, edits: seq<Edit>): string
  {
    Layout(fileName, edits, StyleBlock())
  }

  /** Sum of the wrapper lengths over all tuples. */
  function Overhead(edits: seq<Edit>): nat
  {
    if edits == [] then 0 else Overhead(edits[..|edits| - 1]) + WrapperLength(edits[|edits| - 1].op)
  }

  /** Sum of the text lengths of the tuples with a recognised op. */
  function TextLength(edits: seq<Edit>): nat
  {
    if edits == [] then 0
    else
      var e := edits[|edits| - 1];
      TextLength(edits[..|edits| - 1]) + (if IsKnownOp(e.op) then |e.text| else 0)
  }

  /** A recognised tuple's fragment is its wrapper around its text, unaltered;
      an unrecognised one is empty. */
  lemma FragmentShape(e: Edit)
    ensures IsKnownOp(e.op) ==> |Fragment(e)| == WrapperLength(e.op) + |e.text|
    ensures IsKnownOp(e.op) ==> Fragment(e)[OpenLength(e.op)..OpenLength(e.op) + |e.text|] == e.text
    ensures !IsKnownOp(e.op) ==> Fragment(e) == ""
  {
  }

  /** The body of a concatenation is the concatenation of the bodies. */
  lemma BodyConcat(a: seq<Edit>, b: seq<Edit>)
    ensures Body(a + b) == Body(a) + Body(b)
  {
    FlatMapConcat(a, b, Fragment);
  }

  /** The body grows by exactly one fragment per tuple. */
  lemma BodySnoc(edits: seq<Edit>, e: Edit)
    ensures Body(edits + [e]) == Body(edits) + Fragment(e)
  {
    FlatMapSnoc(edits, e, Fragment);
  }

  /** The length of the body is the wrappers plus the texts of recognised tuples. */
  lemma {:induction false} BodyLength(edits: seq<Edit>)
    ensures |Body(edits)| == Overhead(edits) + TextLength(edits)
  {
    if edits != [] {
      BodyLength(edits[..|edits| - 1]);
      FragmentShape(edits[|edits| - 1]);
    }
  }

  /** The layout's length is the file name, the line break, the wrappers, the
      texts of recognised tuples and the trailing block. */
  lemma LayoutLength(fileName: string, edits: seq<Edit>, style: string)
    ensures |Layout(fileName, edits, style)| == |fileName| + 1 + Overhead(edits) + TextLength(edits) + |style|
  {
    BodyLength(edits);
  }

  /** The report's length: file name, line break, wrappers, texts of
      recognised tuples and the style block. */
  lemma ReportLength(fileName: string, edits: seq<Edit>)
    ensures |Report(fileName, edits)| == |fileName| + 1 + Overhead(edits) + TextLength(edits) + |StyleBlock()|
  {
    LayoutLength(fileName, edits, StyleBlock());
  }

  /** Where the text of tuple `k` starts in the report. */
  function TextOffset(fileName: string, edits: seq<Edit>, k: nat): nat
    requires k < |edits|
  {
    |fileName| + 1 + |Body(edits[..k])| + OpenLength(edits[k].op)
  }

  /** The body splits around any one tuple into the fragments before it, its
      own fragment and the fragments after it. */
  lemma BodySplit(edits: seq<Edit>, k: nat)
    requires k < |edits|
    ensures Body(edits) == Body(edits[..k]) + Fragment(edits[k]) + Body(edits[k + 1..])
  {
    assert edits == (edits[..k] + [edits[k]]) + edits[k + 1..];
    BodyConcat(edits[..k] + [edits[k]], edits[k + 1..]);
    BodySnoc(edits[..k], edits[k]);
  }

  /** No escaping: the text of each recognised tuple appears in the layout
      unaltered, right after its opening tag. */
  lemma LayoutTextAt(fileName: string, edits: seq<Edit>, style: string, k: nat)
    requires k < |edits|
    requires IsKnownOp(edits[k].op)
    ensures
      var at := TextOffset(fileName, edits, k);
      at + |edits[k].text| <= |Layout(fileName, edits, style)| &&
      Layout(fileName, edits, style)[at..at + |edits[k].text|] == edits[k].text
  {
    var e := edits[k];
    var prefix, fragment := fileName + "\n" + Body(edits[..k]), Fragment(e);
    var suffix := Body(edits[k + 1..]) + style;
    BodySplit(edits, k);
    assert Layout(fileName, edits, style) == prefix + fragment + suffix;
    FragmentShape(e);
    var o := OpenLength(e.op);
    SliceOfMiddle(prefix, fragment, suffix, o, o + |e.text|);
    assert TextOffset(fileName, edits, k) == |prefix| + o;
  }

  /** No escaping, for the report itself. */
  lemma ReportTextAt(fileName: string, edits: seq<Edit>, k: nat)
    requires k < |edits|
    requires IsKnownOp(edits[k].op)
    ensures
      var at := TextOffset(fileName, edits, k);
      at + |edits[k].text| <= |Report(fileName, edits)| &&
      Report(fileName, edits)[at..at + |edits[k].text|] == edits[k].text
  {
    LayoutTextAt(fileName, edits, StyleBlock(), k);
  }

  /** Tuples with an op other than 0, 1 or -1 leave no trace: the body is the
      body of the recognised tuples alone. */
  lemma {:induction false} UnknownOpsIgnored(edits: seq<Edit>)
    ensures Body(edits) == Body(Filter(edits, KnownEdit))
  {
    if edits != [] {
      var init, e := edits[..|edits| - 1], edits[|edits| - 1];
      assert edits == init + [e];
      UnknownOpsIgnored(init);
      FilterSnoc(init, e, KnownEdit);
      BodySnoc(init, e);
      if KnownEdit(e) {
        BodySnoc(Filter(init, KnownEdit), e);
      } else {
        FragmentShape(e);
        assert Fragment(e) == "";
        assert Body(edits) == Body(init) + "" == Body(init);
        assert Filter(edits, KnownEdit) == Filter(init, KnownEdit) + [] == Filter(init, KnownEdit);
      }
    }
  }

  /** The fragment of each op, spelled out as lines 101-103 append it. */
  lemma FragmentCases(e: Edit)
    ensures e.op == 0 ==> Fragment(e) == "<span></span>" + e.text + Close()
    ensures e.op == 1 ==> Fragment(e) == "<span class=\"added\">" + e.text + Close()
    ensures e.op == -1 ==> Fragment(e) == "<span class=\"removed\">" + e.text + Close()
    ensures !IsKnownOp(e.op) ==> Fragment(e) == ""
  {
  }

  /** The body of the loop of lines 100-104: the three independent tests on
      the tuple's op, each appending its fragment. */
  method AppendFragment(text: string, result: Edit) returns (newFileTxt: string)
    ensures newFileTxt == text + Fragment(result)
  {
    FragmentCases(result);
    newFileTxt := text;
    if result.op == 0 {
      newFileTxt := newFileTxt + ("<span></span>" + result.text + Close());
    }
    if result.op == 1 {
      newFileTxt := newFileTxt + ("<span class=\"added\">" + result.text + Close());
    }
    if result.op == -1 {
      newFileTxt := newFileTxt + ("<span class=\"removed\">" + result.text + Close());
    }
  }

  /** The loop of lines 100-104: each tuple appends its fragment to the text
      built so far. */
  method AppendFragments(text: string, results: seq<Edit>) returns (newFileTxt: string)
    ensures newFileTxt == text + Body(results)
  {
    newFileTxt := text;
    var i := 0;
    while i < |results|
      invariant 0 <= i <= |results|
      invariant newFileTxt == text + Body(results[..i])
    {
      assert results[..i + 1] == results[..i] + [results[i]];
      BodySnoc(results[..i], results[i]);
      newFileTxt := AppendFragment(newFileTxt, results[i]);
      i := i + 1;
    }
    assert results[..i] == results;
  }

  /** Lines 97-111: `newFileTxt` starts as the file name and a line break,
      gains one fragment per tuple and ends with the style block. */
  method RenderReport(fileName: string, results: seq<Edit>) returns (newFileTxt: string)
    ensures newFileTxt == Report(fileName, results)
  {
    newFileTxt := "";
    newFileTxt := newFileTxt + (fileName + "\n");
    newFileTxt := AppendFragments(newFileTxt, results);
    newFileTxt := newFileTxt + StyleBlock();
  }
}
