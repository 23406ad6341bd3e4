/** pytt.py's `concat_lines`: the lines of a unittest skeleton for a module,
    given the module's class and function names. The timestamp
    (`datetime.now()` formatted as `%Y-%m-%d %H:%M`) and the title-cased
    module name (`str.title`) are inputs. */
module Pytt {

  const INDENT: string := "    "
  const PASS: string := INDENT + INDENT + "pass"
  const SetUpLine: string := INDENT + "def setUp(self):"
  const TearDownLine: string := INDENT + "def tearDown(self):"
  const GeneratedOn: string := "# automatically generated on "
  const ImportUnittest: string := "import unittest"
  const TestCaseBase: string := "(unittest.TestCase):"
  const MainGuard: string := "if __name__ == \"__main__\":"
  const MainCall: string := INDENT + "unittest.main()"

  /** The five opening lines. */
  function HeaderLines(mod: string, stamp: string): (r: seq<string>)
    ensures |r| == 5
  {
    [GeneratedOn + stamp, "", ImportUnittest, "", "import " + mod]
  }

  /** One `from {mod} import {n}` line per class name. */
  function ImportLines(mod: string, classes: seq<string>): (r: seq<string>)
    ensures |r| == |classes|
  {
    seq(|classes|, i requires 0 <= i < |classes| => "from " + mod + " import " + classes[i])
  }

  /** The test class declaration, between blank lines. */
  function ClassLines(title: string): (r: seq<string>)
    ensures |r| == 4
  {
    ["", "", "class Test" + title + TestCaseBase, ""]
  }

  /** The `setUp`/`tearDown` stubs. */
  function StubLines(): (r: seq<string>)
    ensures |r| == 6
  {
    [SetUpLine, PASS, "", TearDownLine, PASS, ""]
  }

  function TestLine(f: string): string {
    INDENT + "def test_" + f + "(self):"
  }

  /** Three lines per function name, in order: the chained test stubs. */
  function FuncLines(funcs: seq<string>): (r: seq<string>)
    ensures |r| == 3 * |funcs|
    ensures forall j :: 0 <= j < |funcs| ==>
              r[3 * j] == TestLine(funcs[j]) && r[3 * j + 1] == PASS && r[3 * j + 2] == ""
  {
    if funcs == [] then []
    else
      var init := funcs[..|funcs| - 1];
      var r := FuncLines(init) + [TestLine(funcs[|funcs| - 1]), PASS, ""];
      assert forall j :: 0 <= j < |init| ==> init[j] == funcs[j];
      r
  }

  /** The four closing lines. */
  function FooterLines(): (r: seq<string>)
    ensures |r| == 4
  {
    ["", MainGuard, MainCall, ""]
  }

  /** The chained parts, before the newline is added: 13 lines plus three per
      function, plus one per class and six stub lines when there is a
      class. */
  function Lines(classes: seq<string>, funcs: seq<string>, mod: string, title: string, stamp: string): (r: seq<string>)
    ensures |r| == 13 + 3 * |funcs| + (if classes != [] then |classes| + 6 else 0)
  {
    HeaderLines(mod, stamp) +
    (if classes != [] then ImportLines(mod, classes) else []) +
    ClassLines(title) +
    (if classes != [] then StubLines() else []) +
    FuncLines(funcs) +
    FooterLines()
  }

  /** `concat_lines`: every part line with "\n" appended, in order. */
  function ConcatLines(classes: seq<string>, funcs: seq<string>, mod: string, title: string, stamp: string): (r: seq<string>)
    ensures |r| == |Lines(classes, funcs, mod, title, stamp)|
    ensures forall i :: 0 <= i < |r| ==> r[i] == Lines(classes, funcs, mod, title, stamp)[i] + "\n"
    ensures forall i :: 0 <= i < |r| ==> |r[i]| >= 1 && r[i][|r[i]| - 1] == '\n'
  {
    var ls := Lines(classes, funcs, mod, title, stamp);
    seq(|ls|, i requires 0 <= i < |ls| => ls[i] + "\n")
  }

  /** The number of class-dependent import lines. */
  function ImportCount(classes: seq<string>): nat {
    if classes != [] then |classes| else 0
  }

  /** Where the function stubs start. */
  function FuncStart(classes: seq<string>): nat {
    if classes != [] then 15 + |classes| else 9
  }

  /** The output opens with the timestamp comment, a blank line, `import
      unittest`, a blank line and the import of the module. */
  lemma LinesHeader(classes: seq<string>, funcs: seq<string>, mod: string, title: string, stamp: string)
    ensures var ls := Lines(classes, funcs, mod, title, stamp);
            |ls| >= 5 && ls[..5] == [GeneratedOn + stamp, "", ImportUnittest, "", "import " + mod]
  {
    var ls := Lines(classes, funcs, mod, title, stamp);
    assert ls[..5] == HeaderLines(mod, stamp);
  }

  /** Then one `from {mod} import {n}` line per class, in order, and none
      when there are no classes. */
  lemma LinesImports(classes: seq<string>, funcs: seq<string>, mod: string, title: string, stamp: string)
    ensures var ls := Lines(classes, funcs, mod, title, stamp);
            |ls| >= 5 + ImportCount(classes) &&
            forall j :: 0 <= j < ImportCount(classes) ==> ls[5 + j] == "from " + mod + " import " + classes[j]
  {
    if classes != [] {
      var ls := Lines(classes, funcs, mod, title, stamp);
      var h, im := HeaderLines(mod, stamp), ImportLines(mod, classes);
      var tail := ClassLines(title) + StubLines() + FuncLines(funcs) + FooterLines();
      assert ls == h + im + tail;
      PartAt(h, im, tail);
      forall j | 0 <= j < |classes| ensures ls[5 + j] == "from " + mod + " import " + classes[j] {
        assert ls[5 + j] == im[j];
      }
    }
  }

  /** The part between `pre` and `post` is found at offset `|pre|`. */
  lemma PartAt<T>(pre: seq<T>, part: seq<T>, post: seq<T>)
    ensures forall j :: 0 <= j < |part| ==> (pre + part + post)[|pre| + j] == part[j]
  {
  }

  /** Then the test class declaration between blank lines. */
  lemma LinesClass(classes: seq<string>, funcs: seq<string>, mod: string, title: string, stamp: string)
    ensures var ls := Lines(classes, funcs, mod, title, stamp);
            var c := ImportCount(classes);
            |ls| >= 9 + c && ls[5 + c..9 + c] == ["", "", "class Test" + title + TestCaseBase, ""]
  {
    var ls := Lines(classes, funcs, mod, title, stamp);
    var c := ImportCount(classes);
    assert ls[5 + c..9 + c] == ClassLines(title);
  }

  /** Then, only when there are classes, the `setUp`/`tearDown` stubs. */
  lemma LinesStubs(classes: seq<string>, funcs: seq<string>, mod: string, title: string, stamp: string)
    requires classes != []
    ensures var ls := Lines(classes, funcs, mod, title, stamp);
            var c := |classes|;
            |ls| >= 15 + c && ls[9 + c..15 + c] == [SetUpLine, PASS, "", TearDownLine, PASS, ""]
  {
    var ls := Lines(classes, funcs, mod, title, stamp);
    var c := |classes|;
    assert ls[9 + c..15 + c] == StubLines();
  }

  /** Then three lines per function name, in input order, duplicates kept. */
  lemma LinesFuncs(classes: seq<string>, funcs: seq<string>, mod: string, title: string, stamp: string)
    ensures var ls := Lines(classes, funcs, mod, title, stamp);
            var f := FuncStart(classes);
            |ls| == f + 3 * |funcs| + 4 &&
            forall j :: 0 <= j < |funcs| ==>
              ls[f + 3 * j] == TestLine(funcs[j]) && ls[f + 3 * j + 1] == PASS && ls[f + 3 * j + 2] == ""
  {
    var ls := Lines(classes, funcs, mod, title, stamp);
    var f := FuncStart(classes);
    var fl := FuncLines(funcs);
    assert ls[f..f + 3 * |funcs|] == fl;
    forall j | 0 <= j < |funcs|
      ensures ls[f + 3 * j] == TestLine(funcs[j])
      ensures ls[f + 3 * j + 1] == PASS
      ensures ls[f + 3 * j + 2] == ""
    {
      assert ls[f + 3 * j] == fl[3 * j];
      assert ls[f + 3 * j + 1] == fl[3 * j + 1];
      assert ls[f + 3 * j + 2] == fl[3 * j + 2];
    }
  }

  /** And it closes with the `__main__` guard running `unittest.main()`. */
  lemma LinesFooter(classes: seq<string>, funcs: seq<string>, mod: string, title: string, stamp: string)
    ensures var ls := Lines(classes, funcs, mod, title, stamp);
            |ls| >= 4 && ls[|ls| - 4..] == ["", MainGuard, MainCall, ""]
  {
    var ls := Lines(classes, funcs, mod, title, stamp);
    assert ls[|ls| - 4..] == FooterLines();
  }

  /** The `setUp` stub appears exactly when the class list is non-empty. */
  lemma SetUpIffClasses(classes: seq<string>, funcs: seq<string>, mod: string, title: string, stamp: string)
    ensures (exists i :: 0 <= i < |ConcatLines(classes, funcs, mod, title, stamp)| &&
                         ConcatLines(classes, funcs, mod, title, stamp)[i] == SetUpLine + "\n")
            <==> classes != []
  {
    var r := ConcatLines(classes, funcs, mod, title, stamp);
    var ls := Lines(classes, funcs, mod, title, stamp);
    if classes != [] {
      var c := |classes|;
      LinesStubs(classes, funcs, mod, title, stamp);
      assert ls[9 + c] == ls[9 + c..15 + c][0];
      assert r[9 + c] == SetUpLine + "\n";
    } else {
      forall i | 0 <= i < |ls| ensures ls[i] != SetUpLine {
        NotSetUp(funcs, mod, title, stamp, i);
      }
      forall i | 0 <= i < |r| ensures r[i] != SetUpLine + "\n" {
        assert r[i][..|r[i]| - 1] == ls[i];
      }
    }
  }

  /** Without classes, no line is the `setUp` stub: each line differs from it
      in its length or in its first, fifth or ninth character. */
  lemma NotSetUp(funcs: seq<string>, mod: string, title: string, stamp: string, i: nat)
    requires i < |Lines([], funcs, mod, title, stamp)|
    ensures Lines([], funcs, mod, title, stamp)[i] != SetUpLine
  {
    var ls := Lines([], funcs, mod, title, stamp);
    var s := SetUpLine;
    assert s[0] == ' ' && s[4] == 'd' && s[8] == 's' && |s| == 20;
    LinesFuncs([], funcs, mod, title, stamp);
    if i < 5 {
      LinesHeader([], funcs, mod, title, stamp);
      assert ls[i] == ls[..5][i];
    } else if i < 9 {
      LinesClass([], funcs, mod, title, stamp);
      assert ls[i] == ls[5..9][i - 5];
    } else if i < 9 + 3 * |funcs| {
      var j := (i - 9) / 3;
      assert 9 + 3 * j <= i < 9 + 3 * j + 3;
      if i == 9 + 3 * j {
        assert ls[i][8] == 't';
      }
    } else {
      LinesFooter([], funcs, mod, title, stamp);
      assert ls[i] == ls[|ls| - 4..][i - (|ls| - 4)];
    }
  }
}
