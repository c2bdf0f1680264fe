/**
 * The repository's demo: the regular expression `/some(.*?)content/` with the
 * template `my $1 result` under the name `regexpName`, applied to the content
 * `somesupercontent` of `/path/to/file`.
 */
module Demo {
  import opened Wrappers
  import opened SourceNodes
  import opened PositionTracking
  import opened Templates
  import opened Replacing

  const Content: string := "somesupercontent"
  const File: string := "/path/to/file"
  const TemplateText: string := "my $1 result"

  /** The one match in the content: all of it, with group 1 taking "super". */
  const Found: RegexMatch := RegexMatch(0, "somesupercontent", [Some("super")])

  /**
   * `/some(.*?)content/` as far as this content goes: no global flag, and a
   * search from the start finds `Found`.
   */
  const SomeRegex: Regex :=
    Regex(false, (s: string, from: nat) => if s == Content && from == 0 then Some(Found) else None)

  /** The template's one reference: `$1` at index 3, naming group 1. */
  lemma DemoToken()
    ensures TokenAt(TemplateText, 3) == Some(Token(3, 5, "1"))
    ensures FirstToken(TemplateText, 0) == Some(Token(3, 5, "1"))
  {
    var t := TemplateText;
    assert t[3] == '$' && t[4] == '1' && t[5] == ' ';
    assert DigitRun(t, 5) == 0;
    assert DigitRun(t, 4) == 1;
    assert t[4..5] == ['1'];
    assert TokenAt(t, 3) == Some(Token(3, 5, "1"));
    assert t[0] == 'm' && t[1] == 'y' && t[2] == ' ';
    assert FirstToken(t, 3) == Some(Token(3, 5, "1"));
    assert FirstToken(t, 2) == Some(Token(3, 5, "1"));
    assert FirstToken(t, 1) == Some(Token(3, 5, "1"));
  }

  /** The template reads as a literal, the reference to group 1, and another literal. */
  lemma DemoParts()
    ensures Parts(TemplateText, 0) == [Lit("my "), Ref("1", "$1"), Lit(" result")]
  {
    var t := TemplateText;
    DemoToken();
    DemoSlices();
    PartsNoDollar(t, 5);
    assert [Lit("my ")] + [Ref("1", "$1")] + [Lit(" result")] == [Lit("my "), Ref("1", "$1"), Lit(" result")];
  }

  lemma DemoSlices()
    ensures TemplateText[0..3] == "my " && TemplateText[3..5] == "$1" && TemplateText[5..] == " result"
    ensures '$' !in TemplateText[5..]
  {
    assert TemplateText[5..] == " result";
  }

  /** The last literal, " result", stands at line 1, column 3 of the template. */
  lemma DemoExpandTail(tname: Option<string>)
    ensures ExpandParts([Lit(" result")], tname, Cursor(1, 3), Some(File), Cursor(1, 0), Found)
         == Success([Fragment(1, 3, tname, " result")])
  {
    var f3 := Fragment(1, 3, tname, " result");
    assert [Lit(" result")][1..] == [];
    assert ExpandParts([], tname, Cursor(1, 3), Some(File), Cursor(1, 0), Found) == Success([]);
    EmitOneLine(tname, Cursor(1, 3), " result");
    assert [f3] + [] == [f3];
  }

  /** The reference `$1` takes "super", group 1 of `Found`, at the start of the match. */
  lemma DemoExpandReference(tname: Option<string>)
    ensures ExpandParts([Ref("1", "$1"), Lit(" result")], tname, Cursor(1, 3), Some(File), Cursor(1, 0), Found)
         == Success([Fragment(1, 0, Some(File), "super"), Fragment(1, 3, tname, " result")])
  {
    var f2, f3 := Fragment(1, 0, Some(File), "super"), Fragment(1, 3, tname, " result");
    assert [Ref("1", "$1"), Lit(" result")][1..] == [Lit(" result")];
    DemoExpandTail(tname);
    assert DecimalValue("1") == 1;
    assert Group(Found, "1") == Some("super");
    EmitOneLine(Some(File), Cursor(1, 0), "super");
    assert [f2] + [f3] == [f2, f3];
  }

  /** The template filled in for `Found`: its literals where they stand in the template, "super" where the match starts. */
  lemma DemoExpand(tname: Option<string>)
    ensures ExpandParts([Lit("my "), Ref("1", "$1"), Lit(" result")], tname, Cursor(1, 0), Some(File), Cursor(1, 0), Found)
         == Success([Fragment(1, 0, tname, "my "), Fragment(1, 0, Some(File), "super"), Fragment(1, 3, tname, " result")])
  {
    var f1, f2, f3 := Fragment(1, 0, tname, "my "), Fragment(1, 0, Some(File), "super"), Fragment(1, 3, tname, " result");
    assert [Lit("my "), Ref("1", "$1"), Lit(" result")][1..] == [Ref("1", "$1"), Lit(" result")];
    DemoExpandReference(tname);
    EmitOneLine(tname, Cursor(1, 0), "my ");
    ForwardedNoNewline(Cursor(1, 0), "my ");
    assert [f1] + [f2, f3] == [f1, f2, f3];
  }

  /** The engine is sound on the content, and `replace` visits the one match `Found`. */
  lemma DemoMatches()
    ensures ExecSound(SomeRegex, Content)
    ensures Matches(SomeRegex, Content, 0) == [Found]
    ensures Fits([Found], 0, Content)
  {
    DemoFits();
  }

  /** `Found` lies in the content. */
  lemma DemoFits()
    ensures FoundIn(Found, Content, 0) && Fits([Found], 0, Content)
  {
    assert Content[0..16] == Content;
    assert [Found][1..] == [];
  }

  /** The match covers the whole content: no unmatched text comes before or after it. */
  lemma DemoNoGap()
    ensures At(Content, 0) == Cursor(1, 0)
    ensures Emit(Some(File), At(Content, 0), Content[0..0]) == []
    ensures Emit(Some(File), At(Content, 16), Content[16..]) == []
  {
    assert Content[..0] == Content[0..0] == [] && Content[16..] == [];
    EmitTexts(Some(File), At(Content, 0), []);
    EmitTexts(Some(File), At(Content, 16), []);
  }

  /** The output fragments: no unmatched text before or after the match, only the filled-in template. */
  lemma DemoAssemble(tname: Option<string>)
    ensures Fits([Found], 0, Content)
    ensures Assemble(Content, File, Parts(TemplateText, 0), tname, [Found], 0)
         == Success([Fragment(1, 0, tname, "my "), Fragment(1, 0, Some(File), "super"), Fragment(1, 3, tname, " result")])
  {
    DemoFits();
    DemoParts();
    DemoExpand(tname);
    var fs := [Fragment(1, 0, tname, "my "), Fragment(1, 0, Some(File), "super"), Fragment(1, 3, tname, " result")];
    var parts := Parts(TemplateText, 0);
    DemoNoGap();
    assert Assemble(Content, File, parts, tname, [Found][1..], 16) == Success([]);
    assert [] + fs + [] == fs;
  }

  /**
   * `replace` on the demo: the code is "my super result"; "my " maps to line 1,
   * column 0 of the template, "super" to the start of the match in the file,
   * and " result" to line 1, column 3 of the template; the content and the
   * template are both registered as sources.
   */
  lemma DemoReplace()
    ensures ExecSound(SomeRegex, Content)
    ensures ReplaceSpec(SomeRegex, TemplateText, Some("regexp/regexpName"), Content, File)
         == Success(Generated(File, "my super result",
              [Fragment(1, 0, Some("regexp/regexpName"), "my "),
               Fragment(1, 0, Some(File), "super"),
               Fragment(1, 3, Some("regexp/regexpName"), " result")],
              map[File := Content, "regexp/regexpName" := TemplateText]))
  {
    var tname := Some("regexp/regexpName");
    DemoMatches();
    DemoAssemble(tname);
    var f1, f2, f3 := Fragment(1, 0, tname, "my "), Fragment(1, 0, Some(File), "super"), Fragment(1, 3, tname, " result");
    TextsOfThree(f1, f2, f3);
    DemoCode();
  }

  lemma TextsOfThree(f1: Fragment, f2: Fragment, f3: Fragment)
    ensures Texts([f1, f2, f3]) == f1.text + f2.text + f3.text
  {
    assert [f1, f2, f3][1..] == [f2, f3] && [f2, f3][1..] == [f3] && [f3][1..] == [];
    assert Texts([f3]) == f3.text by {
      assert f3.text + [] == f3.text;
    }
    assert Texts([f2, f3]) == f2.text + f3.text;
  }

  lemma DemoName()
    ensures "regexp/" + "regexpName" == "regexp/regexpName"
  {
  }

  lemma DemoCode()
    ensures "my " + "super" + " result" == "my super result"
  {
  }

  /** The demo run: build the replacer and replace in the content. */
  method Run() returns (r: Result<Generated, Error>)
    ensures r.Success? && r.value.code == "my super result"
    ensures r == ReplaceSpec(SomeRegex, TemplateText, Some("regexp/regexpName"), Content, File)
  {
    var someReplacer := new Replacer(SomeRegex, TemplateText, Some("regexpName"));
    DemoName();
    DemoReplace();
    r := someReplacer.Replace(Content, File);
  }
}
