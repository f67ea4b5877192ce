/** Worked inputs of the renderer, including the edge cases the source
    keeps: an unclosed fence still renders as code, and a lone `**` is an
    empty bold run. */
module RenderExamples {
  import opened Wrappers
  import opened Strings
  import opened Render

  const BoldText: string := "a **b** c"

  /** Where the bold pattern matches in "a **b** c": only at index 2. */
  lemma BoldMatchesOfSample()
    ensures MatchEnd(BoldPattern, BoldText, 0).None? && MatchEnd(BoldPattern, BoldText, 1).None?
    ensures MatchEnd(BoldPattern, BoldText, 2) == Some(7)
    ensures MatchEnd(BoldPattern, BoldText, 7).None? && MatchEnd(BoldPattern, BoldText, 8).None?
  {
    var s := BoldText;
    assert s[0] == 'a' && s[1] == ' ' && s[4] == 'b' && s[7] == ' ' && s[8] == 'c';
    assert OccursAt(s, 2, Stars) && OccursAt(s, 5, Stars);
    NoLeadNoMatch(BoldPattern, s, 0);
    NoLeadNoMatch(BoldPattern, s, 1);
    BoldCloseStep(s, 4);
    BoldCloseHere(s, 5);
    BoldMatch(s, 2, 5);
    NoLeadNoMatch(BoldPattern, s, 7);
    NoLeadNoMatch(BoldPattern, s, 8);
  }

  lemma PiecesOfSample()
    ensures |BoldText| == 9
    ensures BoldText[0..2] == "a " && BoldText[2..7] == "**b**" && BoldText[7..] == " c"
  {
  }

  lemma BoldSplitOfSample()
    ensures Split(BoldPattern, BoldText) == ["a ", "**b**", " c"]
  {
    var s := BoldText;
    BoldMatchesOfSample();
    PiecesOfSample();
    SplitFromNoMatch(BoldPattern, s, 0, 0);
    SplitFromNoMatch(BoldPattern, s, 0, 1);
    SplitFromAtMatch(BoldPattern, s, 0, 2);
    SplitFromNoMatch(BoldPattern, s, 7, 7);
    SplitFromNoMatch(BoldPattern, s, 7, 8);
    SplitFromAtEnd(BoldPattern, s, 7);
  }

  /** How each sub-part of the sample is classified. */
  lemma ClassesOfSample()
    ensures Classify("a ") == Plain("a ") && Classify(" c") == Plain(" c")
    ensures Classify("**b**") == Bold("b")
  {
    ClassifyUnmarked("a ");
    ClassifyUnmarked(" c");
    assert "**b**" == Stars + "b" + Stars;
    ClassifyWrapped("b");
  }

  lemma InlineOfSample()
    ensures FormatInline(BoldText) == [Plain("a "), Bold("b"), Plain(" c")]
  {
    BoldSplitOfSample();
    FormatInlineThree(BoldText, "a ", "**b**", " c");
    ClassesOfSample();
  }

  /** "a **b** c" renders as plain "a ", bold "b", plain " c". */
  lemma BoldSample()
    ensures RenderContent(BoldText) == [Text([Plain("a "), Bold("b"), Plain(" c")])]
  {
    var s := BoldText;
    assert s[0] == 'a' && s[1] == ' ' && s[2] == '*' && s[3] == '*' && s[4] == 'b';
    assert s[5] == '*' && s[6] == '*' && s[7] == ' ' && s[8] == 'c';
    NoBacktickNoFence(s);
    assert s[..3][0] == 'a';
    assert RenderPart(s) == Text(FormatInline(s));
    InlineOfSample();
  }

  const PythonSample: string := "```python\nprint(1)\n```"

  /** The one fence match in the python sample spans all of it. */
  lemma FenceMatchOfPython()
    ensures |PythonSample| == 22
    ensures MatchEnd(FencePattern, PythonSample, 0) == Some(22)
  {
    var s := PythonSample;
    assert OccursAt(s, 0, Fence) && OccursAt(s, 19, Fence);
    assert forall k :: 3 <= k < 19 ==> s[k] != '`';
    AbsentWithoutLead(s, Fence, 3, 19);
    IndexOfIs(s, Fence, 3, 19);
    FenceMatch(s, 0, 19);
  }

  lemma FenceSplitOfPython()
    ensures Split(FencePattern, PythonSample) == ["", PythonSample, ""]
  {
    var s := PythonSample;
    FenceMatchOfPython();
    SplitFromAtMatch(FencePattern, s, 0, 0);
    SplitFromAtEnd(FencePattern, s, 22);
    assert s[..0] == "" && s[0..22] == s && s[22..] == "";
  }

  /** The python sample is a fence, the word "python", a newline, a body
      without backticks, and a closing fence. */
  lemma ShapeOfPython()
    ensures PythonSample == Fence + "python" + "\n" + "print(1)\n" + Fence
    ensures AbsentBetween(PythonSample, Fence, 10, 19)
    ensures AllWordChars("python")
  {
    var s := PythonSample;
    assert forall k :: 10 <= k < 19 ==> s[k] != '`';
    AbsentWithoutLead(s, Fence, 10, 19);
  }

  lemma InfoMatchOfPython()
    ensures IsInfoMatchAt(PythonSample, 0, "python", "print(1)\n")
  {
    ShapeOfPython();
    assert PythonSample[0..|PythonSample|] == PythonSample;
  }

  lemma CodeOfPython()
    ensures CodeBlock(PythonSample) == Code("python", "print(1)\n")
  {
    InfoMatchOfPython();
    CodeBlockOfMatch(PythonSample, 0, "python", "print(1)\n");
  }

  /** A fenced python block renders as a code block tagged "python" whose
      body keeps its trailing newline; the empty text around it renders
      as empty text segments. */
  lemma PythonSampleRenders()
    ensures RenderContent(PythonSample) == [Text([Plain("")]), Code("python", "print(1)\n"), Text([Plain("")])]
  {
    FenceSplitOfPython();
    CodeOfPython();
    assert StartsWith(PythonSample, Fence);
    RenderSingleFence(PythonSample);
  }

  const CppSample: string := "```c++\nx```"

  /** "```c++\nx```": `c++` is not a word run followed by a newline, so the
      pattern fails and the fallback keeps everything between the outer
      fences. */
  lemma CppSampleFallsBack()
    ensures CodeBlock(CppSample) == Code("code", "c++\nx")
  {
    var s := CppSample;
    assert |s| == 11;
    assert s[3] == 'c' && s[4] == '+' && s[6] == '\n' && s[7] == 'x';
    forall i | 0 <= i <= |s| ensures InfoMatchAt(s, i).None? {
      if i == 0 {
        assert WordRunEnd(s, 4) == 4;
      } else if i == 8 {
      } else if i < 3 {
        MismatchAt(s, i, Fence, 3 - i);
      } else if i < 8 {
        MismatchAt(s, i, Fence, 0);
      }
    }
    assert SliceInner(s, 3, 3) == "c++\nx";
  }

  const UnclosedSample: string := "```abc"

  /** An unclosed fence at the start of the content still renders as a
      code block, with the empty body `slice(3, -3)` gives. */
  lemma UnclosedFenceIsCode()
    ensures RenderContent(UnclosedSample) == [Code("code", "")]
  {
    var s := UnclosedSample;
    assert |s| == 6;
    assert s[3] == 'a' && s[4] == 'b' && s[5] == 'c';
    MismatchAt(s, 1, Fence, 2);
    MismatchAt(s, 2, Fence, 1);
    AbsentWithoutLead(s, Fence, 3, 6);
    assert IndexOf(s, Fence, 3).None?;
    SplitNoMatch(FencePattern, s);
    forall i | 0 <= i <= |s| ensures InfoMatchAt(s, i).None? {
      if i == 0 {
        assert WordRunEnd(s, 3) == 6;
      }
    }
    assert StartsWith(s, Fence);
  }

  /** A lone `**` is a bold run with empty text. */
  lemma LoneMarkerIsEmptyBold()
    ensures FormatInline("**") == [Bold("")]
  {
    assert BoldClose("**", 2).None?;
    SplitNoMatch(BoldPattern, "**");
    FormatInlineIs("**", ["**"]);
  }
}
