/**
  `cleanup_md` of exps/readme_updater.py: turns a docstring into Markdown,
  line by line, with one flag telling whether a fenced code block is open.
  Blank lines are dropped, the first line becomes a `####` title, runs of
  doctest lines (`>>>`/`...`, with their indented continuations) are fenced
  as Python code, unindented prose lines are separated by empty lines,
  bullets `•` become `-`, code lines are stripped and prose indentation is
  halved.
*/
module ReadmeUpdater {
  import opened Text

  /** `iscode(line)`: a doctest prompt or continuation. */
  predicate IsCode(line: string)
  {
    StartsWith(line, ">>>") || StartsWith(line, "...")
  }

  /**
    A doctest line opens with three equal prompt characters, `>` or `.`, so
    it is neither blank nor indented; and the titled first line is never one.
  */
  lemma IsCodeShape(line: string)
    ensures IsCode(line) <==> |line| >= 3 && line[0] == line[1] == line[2] && (line[0] == '>' || line[0] == '.')
    ensures IsCode(line) ==> !Blank(line) && !StartsWith(line, " ")
    ensures !IsCode("#### " + line)
  {
    if IsCode(line) {
      assert !IsWhitespace(line[0]);
    }
    assert ("#### " + line)[0] == '#';
  }

  /** The loop's state: the output lines so far and the `codeblock` flag. */
  datatype State = State(result: seq<string>, codeblock: bool)

  /** A kept line as written out: `•` to `-`, then stripped in a code block or 4-space runs halved outside. */
  function Convert(line: string, codeblock: bool): string
  {
    var dashed := Replace(line, "•", "-");
    if codeblock then Strip(dashed) else Replace(dashed, "    ", "  ")
  }

  /** The line as the loop sees it: the first kept line becomes a `####` title. */
  function Titled(result: seq<string>, line: string): string
  {
    if result == [] then "#### " + line else line
  }

  /** Opening a Python fence before a doctest line, or closing one before an unindented prose line. */
  function Fence(st: State, titled: string): State
  {
    if !st.codeblock && IsCode(titled) then State(st.result + ["", "```python"], true)
    else if st.codeblock && !IsCode(titled) && !StartsWith(titled, " ") then State(st.result + ["```"], false)
    else st
  }

  /** An empty separator line before unindented prose, then the line written out. */
  function Emit(st: State, titled: string): State
  {
    var separated := if st.result != [] && !st.codeblock && !StartsWith(titled, " ") then st.result + [""] else st.result;
    State(separated + [Convert(titled, st.codeblock)], st.codeblock)
  }

  /** One iteration of the `for` loop of `cleanup_md`; `not line.strip()` is `Blank(line)`. */
  function Step(st: State, line: string): State
  {
    if Blank(line) then st
    else
      var titled := Titled(st.result, line);
      Emit(Fence(st, titled), titled)
  }

  /** A step only appends to the output. */
  lemma StepExtends(st: State, line: string)
    ensures st.result <= Step(st, line).result
  {
  }

  /**
    The flag after a kept line: open after a doctest line, and kept open by
    an indented line when it already was.
  */
  lemma StepFlag(st: State, line: string)
    requires !Blank(line)
    ensures var titled := Titled(st.result, line);
      Step(st, line).codeblock == (IsCode(titled) || (st.codeblock && StartsWith(titled, " ")))
    ensures Step(st, line).result != []
  {
  }

  /** The state after the loop has seen `lines`. */
  function Run(lines: seq<string>): State
  {
    if lines == [] then State([], false)
    else Step(Run(lines[..|lines| - 1]), lines[|lines| - 1])
  }

  /** `if codeblock: result.append('```')` */
  function Finish(st: State): seq<string>
  {
    if st.codeblock then st.result + ["```"] else st.result
  }

  /** What `cleanup_md(docs)` returns. */
  function Cleaned(docs: string): string
  {
    JoinWith("\n", Finish(Run(Split(docs, '\n'))))
  }

  /** `cleanup_md(docs)` */
  method CleanupMd(docs: string) returns (md: string)
    ensures md == Cleaned(docs)
  {
    var lines := Split(docs, '\n');
    var result: seq<string> := [];
    var codeblock := false;
    var n := 0;
    while n < |lines|
      invariant n <= |lines|
      invariant State(result, codeblock) == Run(lines[..n])
      decreases |lines| - n
    {
      assert lines[..n + 1][..n] == lines[..n];
      result, codeblock := Advance(result, codeblock, lines[n]);
      n := n + 1;
    }
    assert lines[..n] == lines;
    if codeblock {
      result := result + ["```"];
    }
    md := JoinWith("\n", result);
  }

  /** The body of the `for` loop of `cleanup_md` for one line. */
  method Advance(result: seq<string>, codeblock: bool, line: string) returns (result': seq<string>, codeblock': bool)
    ensures State(result', codeblock') == Step(State(result, codeblock), line)
  {
    result', codeblock' := result, codeblock;
    StripSpec(line);
    if Strip(line) == [] {
      return;
    }
    var titled := line;
    if result' == [] {
      titled := "#### " + titled;
    }
    result', codeblock' := OpenOrClose(result', codeblock', titled);
    result' := Append(result', codeblock', titled);
  }

  /** Opens a Python fence before a doctest line, or closes one before an unindented prose line. */
  method OpenOrClose(result: seq<string>, codeblock: bool, line: string) returns (result': seq<string>, codeblock': bool)
    ensures State(result', codeblock') == Fence(State(result, codeblock), line)
  {
    result', codeblock' := result, codeblock;
    if !codeblock' && IsCode(line) {
      result' := result' + [""];
      result' := result' + ["```python"];
      codeblock' := true;
    } else if codeblock' && !IsCode(line) && !StartsWith(line, " ") {
      codeblock' := false;
      result' := result' + ["```"];
    }
  }

  /** Adds the separator before unindented prose outside a block, then the line written out. */
  method Append(result: seq<string>, codeblock: bool, line: string) returns (result': seq<string>)
    ensures State(result', codeblock) == Emit(State(result, codeblock), line)
  {
    result' := result;
    if result' != [] && !codeblock && !StartsWith(line, " ") {
      result' := result' + [""];
    }
    var written := Replace(line, "•", "-");
    written := if codeblock then Strip(written) else Replace(written, "    ", "  ");
    result' := result' + [written];
  }

  // ---------------------------------------------------------------------------
  // Properties

  /** The non-blank lines, in order. */
  function Kept(lines: seq<string>): (ks: seq<string>)
    ensures forall t :: 0 <= t < |ks| ==> !Blank(ks[t])
  {
    if lines == [] then []
    else
      var init := Kept(lines[..|lines| - 1]);
      if Blank(lines[|lines| - 1]) then init else init + [lines[|lines| - 1]]
  }

  /** Blank and whitespace-only lines are dropped: only the other lines matter. */
  lemma {:induction false} DropsBlank(lines: seq<string>)
    ensures Run(lines) == Run(Kept(lines))
  {
    if lines != [] {
      var init := lines[..|lines| - 1];
      var last := lines[|lines| - 1];
      DropsBlank(init);
      StripSpec(last);
      if !Blank(last) {
        var ks := Kept(init) + [last];
        assert ks[..|ks| - 1] == Kept(init);
      }
    }
  }

  /** Line t of the kept lines as the loop sees it: the first one carries the title mark. */
  function Seen(ks: seq<string>, t: nat): string
    requires t < |ks|
  {
    if t == 0 then "#### " + ks[0] else ks[t]
  }

  /** After at least one kept line the output is not empty, so only the first line is titled. */
  lemma {:induction false} RunEmpty(ks: seq<string>)
    requires forall t :: 0 <= t < |ks| ==> !Blank(ks[t])
    ensures Run(ks).result == [] <==> ks == []
  {
    if ks != [] {
      StripSpec(ks[|ks| - 1]);
    }
  }

  /** The flag after the last of the kept lines, in terms of the flag before it. */
  lemma RunFlag(ks: seq<string>)
    requires ks != [] && forall t :: 0 <= t < |ks| ==> !Blank(ks[t])
    ensures var n := |ks| - 1;
      Run(ks).codeblock == (IsCode(Seen(ks, n)) || (Run(ks[..n]).codeblock && StartsWith(Seen(ks, n), " ")))
  {
    var n := |ks| - 1;
    RunEmpty(ks[..n]);
    StepFlag(Run(ks[..n]), ks[n]);
  }

  /** The flag as a recurrence over the kept lines alone. */
  ghost predicate OpenAfter(ks: seq<string>)
  {
    if ks == [] then false
    else
      var n := |ks| - 1;
      IsCode(Seen(ks, n)) || (OpenAfter(ks[..n]) && StartsWith(Seen(ks, n), " "))
  }

  /** The loop's flag follows that recurrence. */
  lemma {:induction false} FlagRecurrence(ks: seq<string>)
    requires forall t :: 0 <= t < |ks| ==> !Blank(ks[t])
    ensures Run(ks).codeblock == OpenAfter(ks)
  {
    if ks != [] {
      var n := |ks| - 1;
      FlagRecurrence(ks[..n]);
      assert forall t :: 0 <= t < n ==> ks[..n][t] == ks[t];
      RunFlag(ks);
    }
  }

  /** Line j is a doctest line and every later line is one too or is indented. */
  ghost predicate CodeFrom(ks: seq<string>, j: nat)
    requires j < |ks|
  {
    IsCode(Seen(ks, j)) && forall t :: j < t < |ks| ==> IsCode(Seen(ks, t)) || StartsWith(Seen(ks, t), " ")
  }

  /** A run of code from line j on leaves the recurrence open. */
  lemma {:induction false} OpenFrom(ks: seq<string>, j: nat)
    requires j < |ks| && CodeFrom(ks, j)
    ensures OpenAfter(ks)
  {
    var n := |ks| - 1;
    if j < n {
      var init := ks[..n];
      assert forall t :: 0 <= t < n ==> Seen(init, t) == Seen(ks, t);
      assert CodeFrom(init, j);
      OpenFrom(init, j);
      assert IsCode(Seen(ks, n)) || StartsWith(Seen(ks, n), " ");
    }
  }

  /** An open recurrence comes from a run of code starting at some line. */
  lemma {:induction false} OpenWitness(ks: seq<string>) returns (j: nat)
    requires OpenAfter(ks)
    ensures j < |ks| && CodeFrom(ks, j)
  {
    var n := |ks| - 1;
    if IsCode(Seen(ks, n)) {
      j := n;
    } else {
      var init := ks[..n];
      assert forall t :: 0 <= t < n ==> Seen(init, t) == Seen(ks, t);
      j := OpenWitness(init);
      assert CodeFrom(init, j);
    }
  }

  /** The recurrence holds exactly when some line starts a run of code. */
  lemma OpenMeaning(ks: seq<string>)
    ensures OpenAfter(ks) <==> exists j: nat :: j < |ks| && CodeFrom(ks, j)
  {
    if OpenAfter(ks) {
      var j := OpenWitness(ks);
    }
    if exists j: nat :: j < |ks| && CodeFrom(ks, j) {
      var j: nat :| j < |ks| && CodeFrom(ks, j);
      OpenFrom(ks, j);
    }
  }

  /**
    A code block is open after the kept lines exactly when some line is a
    doctest line and every line after it is a doctest line or indented.
  */
  lemma FlagMeaning(ks: seq<string>)
    requires forall t :: 0 <= t < |ks| ==> !Blank(ks[t])
    ensures Run(ks).codeblock <==> exists j: nat :: j < |ks| && CodeFrom(ks, j)
  {
    FlagRecurrence(ks);
    OpenMeaning(ks);
  }

  /** The first kept line is written out alone, as a title. */
  lemma StepFirst(line: string)
    requires !Blank(line)
    ensures Step(State([], false), line).result == [Convert("#### " + line, false)]
  {
    var titled := "#### " + line;
    assert titled[0] == '#';
    assert !IsCode(titled) && !StartsWith(titled, " ");
  }

  /** The first output line is the title: `#### ` and the first kept line, converted as prose. */
  lemma TitleFirst(lines: seq<string>)
    requires Kept(lines) != []
    ensures Run(lines).result != [] && Run(lines).result[0] == Convert("#### " + Kept(lines)[0], false)
  {
    var ks := Kept(lines);
    DropsBlank(lines);
    RunPrefix(ks, 1);
    var one := ks[..1];
    assert one[..0] == [] && one[0] == ks[0];
    assert Run(one) == Step(State([], false), ks[0]);
    StepFirst(ks[0]);
  }

  /** The loop only appends: the output after some of the lines is a prefix of the output after all. */
  lemma {:induction false} RunPrefix(lines: seq<string>, i: nat)
    requires i <= |lines|
    ensures Run(lines[..i]).result <= Run(lines).result
    decreases |lines| - i
  {
    if i < |lines| {
      RunPrefix(lines, i + 1);
      var init := lines[..|lines| - 1];
      assert lines[..i + 1][..i] == lines[..i];
      if i + 1 == |lines| {
        assert lines[..i] == init;
        StepExtends(Run(init), lines[|lines| - 1]);
      } else {
        StepExtends(Run(lines[..i + 1][..i]), lines[i]);
      }
    } else {
      assert lines[..i] == lines;
    }
  }

  /**
    Every unindented line outside a code block, except the first output
    line, comes right after an empty line.
  */
  lemma SeparatorBefore(ks: seq<string>)
    requires forall t :: 0 <= t < |ks| ==> !Blank(ks[t])
    requires |ks| > 1 && !Run(ks).codeblock && !StartsWith(Seen(ks, |ks| - 1), " ")
    ensures var out := Run(ks).result; |out| >= 2 && out[|out| - 2] == ""
  {
    var init := ks[..|ks| - 1];
    RunEmpty(init);
    StripSpec(ks[|ks| - 1]);
  }

  /** The two fence lines the loop writes. */
  predicate IsFence(line: string)
  {
    line == "```python" || line == "```"
  }

  /** The fence lines among the output lines, in order. */
  function FenceLines(out: seq<string>): (fs: seq<string>)
    ensures forall i :: 0 <= i < |fs| ==> IsFence(fs[i])
  {
    if out == [] then []
    else
      var init := FenceLines(out[..|out| - 1]);
      var last := out[|out| - 1];
      if IsFence(last) then init + [last] else init
  }

  /** Opening and closing fences take turns, an opening one first. */
  ghost predicate Alternating(fs: seq<string>)
  {
    forall i :: 0 <= i < |fs| ==> fs[i] == (if i % 2 == 0 then "```python" else "```")
  }

  /**
    When no docstring line is, once stripped, a fence of its own, the fences
    the loop writes take turns, opening first, and an odd count means a block
    is still open.
  */
  lemma {:induction false} FencesRun(lines: seq<string>)
    requires forall i :: 0 <= i < |lines| ==> !IsFence(Strip(lines[i]))
    ensures Alternating(FenceLines(Run(lines).result))
    ensures |FenceLines(Run(lines).result)| % 2 == 1 <==> Run(lines).codeblock
  {
    if lines != [] {
      var init := lines[..|lines| - 1];
      var last := lines[|lines| - 1];
      assert forall i :: 0 <= i < |init| ==> init[i] == lines[i];
      FencesRun(init);
      var st := Run(init);
      if !Blank(last) {
        var titled := Titled(st.result, last);
        if st.result == [] {
          TitleNotFence(last);
        }
        FenceStep(st, titled);
      }
    }
  }

  /** The `####` title, stripped, starts with `#` and so is no fence. */
  lemma TitleNotFence(line: string)
    ensures !IsFence(Strip("#### " + line))
  {
    var t := "#### " + line;
    assert StripLeft(t) == t;
    StripRightSpec(t);
    var r := StripRight(t);
    assert r != [] ==> r[0] == '#';
  }

  /** One kept line keeps the fences taking turns, with the flag open exactly after an opening one. */
  lemma FenceStep(st: State, titled: string)
    requires Alternating(FenceLines(st.result)) && (|FenceLines(st.result)| % 2 == 1 <==> st.codeblock)
    requires !IsFence(Strip(titled))
    ensures var next := Emit(Fence(st, titled), titled);
      Alternating(FenceLines(next.result)) && (|FenceLines(next.result)| % 2 == 1 <==> next.codeblock)
  {
    var fenced := Fence(st, titled);
    FenceTurn(st, titled);
    ConvertFence(titled, fenced.codeblock);
    EmitFences(fenced, titled);
  }

  /** Opening or closing a block adds the fence whose turn it is. */
  lemma FenceTurn(st: State, titled: string)
    requires Alternating(FenceLines(st.result)) && (|FenceLines(st.result)| % 2 == 1 <==> st.codeblock)
    ensures var fenced := Fence(st, titled);
      Alternating(FenceLines(fenced.result)) && (|FenceLines(fenced.result)| % 2 == 1 <==> fenced.codeblock)
  {
    var fenced := Fence(st, titled);
    var fs := FenceLines(st.result);
    if !st.codeblock && IsCode(titled) {
      FenceAdd(st.result, "");
      FenceAdd(st.result + [""], "```python");
      assert fenced.result == st.result + [""] + ["```python"];
      AlternateAppend(fs, "```python");
    } else if st.codeblock && !IsCode(titled) && !StartsWith(titled, " ") {
      FenceAdd(st.result, "```");
      AlternateAppend(fs, "```");
    }
  }

  /** Writing out a line that does not become a fence adds no fence. */
  lemma EmitFences(st: State, titled: string)
    requires !IsFence(Convert(titled, st.codeblock))
    ensures FenceLines(Emit(st, titled).result) == FenceLines(st.result)
  {
    var written := Convert(titled, st.codeblock);
    var separated := if st.result != [] && !st.codeblock && !StartsWith(titled, " ") then st.result + [""] else st.result;
    FenceAdd(st.result, "");
    FenceAdd(separated, written);
  }

  /**
    The fences of `cleanup_md`'s output are balanced: when no docstring line
    is, once stripped, a fence of its own, they pair up as an opening
    ```` ```python ```` followed by its closing ```` ``` ````, the last block
    being closed after the loop.
  */
  lemma FencesBalanced(lines: seq<string>)
    requires forall i :: 0 <= i < |lines| ==> !IsFence(Strip(lines[i]))
    ensures var fs := FenceLines(Finish(Run(lines)));
      Alternating(fs) && |fs| % 2 == 0
  {
    FencesRun(lines);
    FinishFences(Run(lines));
  }

  /** The closing fence after the loop ends the open block, if any. */
  lemma FinishFences(st: State)
    requires Alternating(FenceLines(st.result)) && (|FenceLines(st.result)| % 2 == 1 <==> st.codeblock)
    ensures Alternating(FenceLines(Finish(st))) && |FenceLines(Finish(st))| % 2 == 0
  {
    if st.codeblock {
      FenceAdd(st.result, "```");
      AlternateAppend(FenceLines(st.result), "```");
    }
  }

  /** Appending one line adds it to the fences exactly when it is one. */
  lemma FenceAdd(out: seq<string>, line: string)
    ensures FenceLines(out + [line]) == FenceLines(out) + (if IsFence(line) then [line] else [])
  {
    assert (out + [line])[..|out|] == out;
  }

  lemma AlternateAppend(fs: seq<string>, f: string)
    requires Alternating(fs) && f == (if |fs| % 2 == 0 then "```python" else "```")
    ensures Alternating(fs + [f])
  {
  }

  /**
    A line is written out as a fence only when it is that fence once
    stripped: no fence holds the `-` that bullets become, stripping keeps what
    lies between the whitespace ends, and halving indentation leaves a space
    wherever there was one.
  */
  lemma ConvertFence(line: string, codeblock: bool)
    ensures IsFence(Convert(line, codeblock)) ==> Strip(line) == Convert(line, codeblock)
  {
    var dashed := Replace(line, "•", "-");
    ReplaceChar(line, '•', '-');
    if IsFence(Convert(line, codeblock)) {
      if codeblock {
        StrippedFence(line, dashed);
      } else {
        HalvedFence(line, dashed);
      }
    }
  }

  /** Inside a block: a fence stripped from the dashed line is the stripped line itself. */
  lemma StrippedFence(line: string, dashed: string)
    requires |dashed| == |line| && forall i :: 0 <= i < |line| ==> dashed[i] == if line[i] == '•' then '-' else line[i]
    requires IsFence(Strip(dashed))
    ensures Strip(line) == Strip(dashed)
  {
    var f := Strip(dashed);
    FenceChars(f);
    StripAt(line, dashed);
    var a := |line| - |StripLeft(line)|;
    var b := a + |f|;
    forall i | a <= i < b
      ensures line[i] == dashed[i]
    {
      assert dashed[i] == f[i - a];
    }
    assert line[a..b] == dashed[a..b];
  }

  /** Outside a block: a fence left by halving indentation is the line itself, already stripped. */
  lemma HalvedFence(line: string, dashed: string)
    requires |dashed| == |line| && forall i :: 0 <= i < |line| ==> dashed[i] == if line[i] == '•' then '-' else line[i]
    requires IsFence(Replace(dashed, "    ", "  "))
    ensures Strip(line) == Replace(dashed, "    ", "  ")
  {
    var f := Replace(dashed, "    ", "  ");
    FenceChars(f);
    ReplaceSpaced(dashed);
    forall i | 0 <= i < |line|
      ensures line[i] == f[i]
    {
      assert dashed[i] == f[i];
    }
    assert line == f;
  }

  /** A fence holds neither a space nor a `-`, and stripping leaves it as it is. */
  lemma FenceChars(f: string)
    requires IsFence(f)
    ensures ' ' !in f && '-' !in f && Strip(f) == f
  {
    assert StripLeft(f) == f && StripRight(f) == f;
  }

  /** `•` is the one-character pattern the bullets are replaced with `-` by. */
  lemma Dashed(line: string)
    ensures '•' !in Replace(line, "•", "-")
  {
    ReplaceChar(line, '•', '-');
  }

  /** No written-out line holds a `•`. */
  lemma ConvertNoBullet(line: string, codeblock: bool)
    ensures '•' !in Convert(line, codeblock)
  {
    var dashed := Replace(line, "•", "-");
    Dashed(line);
    if codeblock {
      StripSlice(dashed);
    } else {
      ReplaceFree(dashed, "    ", "  ", '•');
    }
  }

  /** Inside a code block a written-out line has no whitespace at either end. */
  lemma ConvertStripped(line: string)
    ensures var c := Convert(line, true); c != [] ==> !IsWhitespace(c[0]) && !IsWhitespace(c[|c| - 1])
  {
    StripSpec(Replace(line, "•", "-"));
  }

  /** Outside a code block an indentation of 4k spaces becomes 2k. */
  lemma ConvertIndent(k: nat, rest: string)
    ensures Convert(Spaces(4 * k) + rest, false) == Spaces(2 * k) + Replace(Replace(rest, "•", "-"), "    ", "  ")
  {
    var dashed := Replace(rest, "•", "-");
    ReplaceAfterSpaces(4 * k, rest, '•', '-');
    assert Spaces(4) == "    " && Spaces(2) == "  ";
    IndentHalved(k, dashed);
  }
}
