/** What the parser promises, line by line and over whole documents: the legality
    rules of directives and headings, the code-fence rules, the line-break rule of
    content lines, alias handling and the finalisation checks. */
module WikiLemmas {
  import opened Wrappers
  import opened Strings
  import opened Markup
  import opened Wiki

  /** The text a content line is currently appended to. */
  function Accumulator(s: Scan): string
    requires Inv(s) && !AwaitingHeading(s.mode)
  {
    match s.mode
    case Body => s.body
    case Field => s.fields[|s.fields| - 1].value
    case Footer => s.footer.GetOr("")
  }

  // ---------------------------------------------------------------------------
  // One step, by kind of line

  lemma StepContent(s: Scan, line: string)
    requires Inv(s) && Classify(s.inCode, line) == ContentLine
    ensures ParseLine(s, line) == AppendContent(s, line)
  {
  }

  lemma StepFence(s: Scan, line: string)
    requires Inv(s) && Classify(s.inCode, line) == FenceLine
    ensures ParseLine(s, line) == AppendContent(s.(inCode := !s.inCode), line)
  {
  }

  lemma StepHeading(s: Scan, line: string)
    requires Inv(s) && Classify(s.inCode, line) == HeadingLine
    ensures ParseLine(s, line) == ParseHeading(s, line)
  {
  }

  lemma StepDirective(s: Scan, line: string, directive: string)
    requires Inv(s) && Classify(s.inCode, line) == DirectiveLine
    requires DirectivePayload(Trim(line)) == Some(directive)
    ensures ParseLine(s, line) == ParseDirective(s, directive)
  {
  }

  /** Outside the awaiting modes a content line always lands in the accumulator. */
  lemma AppendAccumulates(s: Scan, line: string)
    requires Inv(s) && !AwaitingHeading(s.mode)
    ensures AppendContent(s, line).Success?
    ensures var r := AppendContent(s, line).value;
      && r.mode == s.mode && r.inCode == s.inCode && Inv(r)
      && Accumulator(r) == Joined(Accumulator(s), Terminated(s.inCode, line))
  {
  }

  /** A content line's contribution spelled out: separator, the line, maybe a break. */
  lemma JoinedTerminated(acc: string, inCode: bool, line: string)
    ensures Joined(acc, Terminated(inCode, line)) ==
      acc + (if EndsWith(acc, " ") then "" else " ") + line + (if NeedsLineBreak(inCode, line) then "\n" else "")
  {
  }

  lemma RunCons(s: Scan, lines: seq<string>)
    requires Inv(s) && |lines| > 0
    ensures Run(s, lines) ==
      match ParseLine(s, lines[0])
      case Failure(e) => Failure(e)
      case Success(next) => Run(next, lines[1..])
  {
  }

  // ---------------------------------------------------------------------------
  // Directives

  /** A `title` directive is accepted only in body mode, where it waits for the title. */
  lemma TitleDirectiveRule(s: Scan, line: string)
    requires Inv(s)
    requires Classify(s.inCode, line) == DirectiveLine && DirectivePayload(Trim(line)) == Some("title")
    ensures ParseLine(s, line) ==
      if s.mode == Body then Success(s.(mode := BeforeTitle)) else Failure(TitleDirectiveOutsideBody)
  {
  }

  /** A `field` or `inline field` directive pushes one empty field and waits for its name;
      the fields already there are untouched, in every mode. */
  lemma FieldDirectiveRule(s: Scan, line: string, inline: bool)
    requires Inv(s)
    requires Classify(s.inCode, line) == DirectiveLine
    requires DirectivePayload(Trim(line)) == Some(if inline then "inline field" else "field")
    ensures ParseLine(s, line) ==
      Success(s.(fields := s.fields + [WikiField("", "", inline)], mode := BeforeField))
  {
    StepDirective(s, line, if inline then "inline field" else "field");
  }

  /** Each name with the whitespace written before and after it, as a hand-written list
      such as `foo, bar` spells it. */
  function Padded(pre: seq<string>, names: seq<string>, post: seq<string>): (r: seq<string>)
    requires |pre| == |names| && |post| == |names|
    ensures |r| == |names|
  {
    seq(|names|, k requires 0 <= k < |names| => pre[k] + names[k] + post[k])
  }

  /** A list of trimmed, comma-free names, each padded with whitespace on either side. */
  predicate AliasSpelling(pre: seq<string>, names: seq<string>, post: seq<string>) {
    && |names| >= 1 && |pre| == |names| && |post| == |names|
    && forall k :: 0 <= k < |names| ==>
         IsTrimmed(names[k]) && ',' !in names[k] && AllWhitespace(pre[k]) && AllWhitespace(post[k])
  }

  /** The payload of an `alias` directive that lists the padded names. */
  function AliasList(pre: seq<string>, names: seq<string>, post: seq<string>): string
    requires |pre| == |names| && |post| == |names|
  {
    "alias " + Join(Padded(pre, names, post), ",")
  }

  /** A comma-separated list of padded names reads back as exactly the names: the split
      gives the padded parts and the trim of each part removes its padding. */
  lemma AliasNamesOfList(pre: seq<string>, names: seq<string>, post: seq<string>)
    requires AliasSpelling(pre, names, post)
    ensures StartsWith(AliasList(pre, names, post), "alias ")
    ensures AliasNames(AliasList(pre, names, post)) == names
  {
    var parts := Padded(pre, names, post);
    var d := AliasList(pre, names, post);
    assert forall k :: 0 <= k < |parts| ==> ',' !in parts[k];
    AliasPrefix(Join(parts, ","));
    SplitJoin(parts, ',');
    assert Split(d[6..], ',') == parts;
    var got := AliasNames(d);
    forall k | 0 <= k < |names| ensures got[k] == names[k] {
      TrimPadded(pre[k], names[k], post[k]);
    }
  }

  lemma AliasPrefix(list: string)
    ensures StartsWith("alias " + list, "alias ") && ("alias " + list)[6..] == list
  {
  }

  /** An `alias` directive listing padded names succeeds iff no name repeats and none is
      already known, and then adds exactly the trimmed names. */
  lemma AliasDirectiveRule(s: Scan, pre: seq<string>, names: seq<string>, post: seq<string>)
    requires Inv(s) && AliasSpelling(pre, names, post)
    ensures ParseDirective(s, AliasList(pre, names, post)).Success? <==>
      Distinct(names) && forall k :: 0 <= k < |names| ==> names[k] !in s.aliases
    ensures ParseDirective(s, AliasList(pre, names, post)).Success? ==>
      ParseDirective(s, AliasList(pre, names, post)).value ==
        s.(aliases := s.aliases + set n | n in names)
  {
    var d := AliasList(pre, names, post);
    AliasNamesOfList(pre, names, post);
    AliasIsNoKeyword(d);
    assert ParseDirective(s, d) ==
      match AddAliases(s.aliases, names)
      case Failure(e) => Failure(e)
      case Success(aliases) => Success(s.(aliases := aliases));
  }

  /** The empty padding of `n` names. */
  function Blanks(n: nat): (r: seq<string>)
    ensures |r| == n && forall k :: 0 <= k < n ==> r[k] == ""
  {
    seq(n, _ => "")
  }

  /** Names written without padding are their own padded list. */
  lemma UnpaddedList(names: seq<string>)
    ensures Padded(Blanks(|names|), names, Blanks(|names|)) == names
  {
    var p := Padded(Blanks(|names|), names, Blanks(|names|));
    forall k | 0 <= k < |names| ensures p[k] == names[k] {
      assert p[k] == "" + names[k] + "";
    }
  }

  /** `foo, bar` is the names `foo` and `bar`, the second one padded by a blank. */
  lemma FooBarSpelling()
    ensures AliasSpelling(["", " "], ["foo", "bar"], ["", ""])
    ensures AliasList(["", " "], ["foo", "bar"], ["", ""]) == "alias foo, bar"
  {
    var p := Padded(["", " "], ["foo", "bar"], ["", ""]);
    assert p[0] == "foo" && p[1] == " bar";
    assert p == ["foo", " bar"];
    assert p[1..] == [" bar"];
    assert Join(p, ",") == "foo" + "," + " bar";
  }

  /** `<!-- alias foo, bar -->` adds the two names `foo` and `bar`. */
  lemma AliasListExample(s: Scan)
    requires Inv(s) && s.aliases == {}
    ensures ParseDirective(s, "alias foo, bar") == Success(s.(aliases := {"foo", "bar"}))
  {
    var pre, names, post := ["", " "], ["foo", "bar"], ["", ""];
    FooBarSpelling();
    FooBarAdded(s, pre, names, post);
  }

  lemma FooBarAdded(s: Scan, pre: seq<string>, names: seq<string>, post: seq<string>)
    requires Inv(s) && s.aliases == {}
    requires names == ["foo", "bar"] && AliasSpelling(pre, names, post)
    ensures ParseDirective(s, AliasList(pre, names, post)) == Success(s.(aliases := {"foo", "bar"}))
  {
    AliasDirectiveRule(s, pre, names, post);
    assert names[0] == "foo" && names[1] == "bar" && |names| == 2;
    assert "foo" != "bar";
    assert Distinct(names);
    var added := set n | n in names;
    assert "foo" in added && "bar" in added;
    assert forall n :: n in added ==> n == "foo" || n == "bar";
    assert added == {"foo", "bar"};
    var r := ParseDirective(s, AliasList(pre, names, post));
    assert r.Success? && r.value == s.(aliases := s.aliases + added);
    assert s.aliases + added == {"foo", "bar"};
  }

  /** An `alias` payload is none of the other directive words. */
  lemma AliasIsNoKeyword(d: string)
    requires StartsWith(d, "alias ")
    ensures d != "title" && d != "field" && d != "inline field" && d != "footer"
    ensures d != "user author" && d != "no embed"
  {
    assert d[0] == 'a';
  }

  /** A payload outside the vocabulary leaves the whole state unchanged. */
  lemma UnknownDirectiveIgnored(s: Scan, line: string, directive: string)
    requires Inv(s)
    requires Classify(s.inCode, line) == DirectiveLine && DirectivePayload(Trim(line)) == Some(directive)
    requires directive !in {"title", "field", "inline field", "footer", "user author", "no embed"}
    requires !StartsWith(directive, "alias ")
    ensures ParseLine(s, line) == Success(s)
  {
  }

  /** A line that looks like a directive but does not match the regex fails the parse. */
  lemma MalformedDirectiveFails(s: Scan, line: string)
    requires Inv(s)
    requires Classify(s.inCode, line) == DirectiveLine && DirectivePayload(Trim(line)).None?
    ensures ParseLine(s, line) == Failure(MalformedDirective)
  {
  }

  /** `<!-->` starts with `<!--` and ends with `-->` but is no directive: it fails. */
  lemma ShortCommentFails(s: Scan)
    requires Inv(s) && !s.inCode
    ensures ParseLine(s, "<!-->") == Failure(MalformedDirective)
  {
    ShortCommentShape();
    MalformedDirectiveFails(s, "<!-->");
  }

  /** `<!-->` is classified as a directive line, and the payload pattern finds nothing. */
  lemma ShortCommentShape()
    ensures Classify(false, "<!-->") == DirectiveLine
    ensures DirectivePayload(Trim("<!-->")).None?
  {
    var t := "<!-->";
    assert IsTrimmed(t);
    TrimOfTrimmed(t);
    assert t[..3] != "```" && t[..1] != "#" && t[..4] == "<!--" && t[|t| - 3..] == "-->";
  }

  // ---------------------------------------------------------------------------
  // Headings

  /** After a title directive only a level-1 heading is accepted; its text after the
      first character, trimmed, becomes the title and the parser returns to the body. */
  lemma TitleHeadingRule(s: Scan, line: string)
    requires Inv(s) && s.mode == BeforeTitle
    requires Classify(s.inCode, line) == HeadingLine
    ensures ParseLine(s, line).Success? <==> HeadingLevel(line) == 1
    ensures HeadingLevel(line) == 1 ==>
      ParseLine(s, line) == Success(s.(title := Some(Trim(line[1..])), mode := Body))
    ensures HeadingLevel(line) > 1 ==> ParseLine(s, line) == Failure(TitleNotLevelOne)
  {
    StepHeading(s, line);
  }

  /** After a field directive only a level-2 heading is accepted; it names the last field
      and nothing else, and the parser goes on to that field's value. */
  lemma FieldNameRule(s: Scan, line: string)
    requires Inv(s) && s.mode == BeforeField
    requires Classify(s.inCode, line) == HeadingLine
    ensures ParseLine(s, line).Success? <==> HeadingLevel(line) == 2
    ensures HeadingLevel(line) == 2 ==>
      var r := ParseLine(s, line).value;
      && r.mode == Field
      && |r.fields| == |s.fields|
      && r.fields[..|s.fields| - 1] == s.fields[..|s.fields| - 1]
      && r.fields[|s.fields| - 1] == s.fields[|s.fields| - 1].(name := Trim(line[2..]))
      && r == s.(fields := r.fields, mode := Field)
    ensures HeadingLevel(line) != 2 && HeadingLevel(line) >= 1 ==>
      ParseLine(s, line) == Failure(FieldNameNotLevelTwo)
  {
    StepHeading(s, line);
    FieldHeading(s, line);
  }

  /** The heading step alone, in the mode after a field directive. */
  lemma FieldHeading(s: Scan, line: string)
    requires Inv(s) && s.mode == BeforeField
    ensures ParseHeading(s, line).Success? <==> HeadingLevel(line) == 2
    ensures HeadingLevel(line) == 2 ==>
      var r := ParseHeading(s, line).value;
      && r.mode == Field
      && |r.fields| == |s.fields|
      && r.fields[..|s.fields| - 1] == s.fields[..|s.fields| - 1]
      && r.fields[|s.fields| - 1] == s.fields[|s.fields| - 1].(name := Trim(line[2..]))
      && r == s.(fields := r.fields, mode := Field)
    ensures HeadingLevel(line) != 2 && HeadingLevel(line) >= 1 ==>
      ParseHeading(s, line) == Failure(FieldNameNotLevelTwo)
  {
    if HeadingLevel(line) == 2 {
      var r := ParseHeading(s, line).value;
      assert r.fields[..|s.fields| - 1] == s.fields[..|s.fields| - 1];
    }
  }

  /** A heading made only of `#` has no level and fails, whatever the mode. */
  lemma HashOnlyHeadingFails(s: Scan, line: string)
    requires Inv(s)
    requires Classify(s.inCode, line) == HeadingLine
    requires forall k :: 0 <= k < |line| ==> line[k] == '#'
    ensures ParseLine(s, line) == Failure(HeadingWithoutLevel)
  {
  }

  /** Outside the awaiting modes a heading is content that keeps its `#` marks and a
      hard line break; only the current accumulator changes. */
  lemma HeadingInContentMode(s: Scan, line: string)
    requires Inv(s) && !AwaitingHeading(s.mode)
    requires Classify(s.inCode, line) == HeadingLine && HeadingLevel(line) >= 1
    ensures ParseLine(s, line).Success?
    ensures ParseLine(s, line).value.mode == s.mode
    ensures Accumulator(ParseLine(s, line).value) == Joined(Accumulator(s), line + "\n")
    ensures var t := ParseLine(s, line).value;
      t == s.(body := t.body, fields := t.fields, footer := t.footer) && KeepsOtherAccumulators(s, t)
  {
    StepHeading(s, line);
    assert ParseHeading(s, line) == AppendContent(s, line);
    AppendAccumulates(s, line);
    assert StartsWith(line, "#");
  }

  // ---------------------------------------------------------------------------
  // Content lines and code fences

  /** While a title or field name is awaited, every content line fails the parse,
      a blank line and a fence line included. */
  lemma AwaitingHeadingRejectsContent(s: Scan, line: string)
    requires Inv(s) && AwaitingHeading(s.mode)
    requires Classify(s.inCode, line) == ContentLine || Classify(s.inCode, line) == FenceLine
    ensures ParseLine(s, line) == Failure(ContentWhileAwaitingHeading)
  {
  }

  /** Inside an open fence headings and directives are not recognised: every line but the
      closing fence is content. */
  lemma FenceSuppressesSyntax(s: Scan, line: string)
    requires Inv(s) && s.inCode && !IsFence(line)
    ensures Classify(s.inCode, line) == ContentLine
    ensures ParseLine(s, line) == AppendContent(s, line)
  {
  }

  /** A fence line flips the fence flag and is then appended as content. */
  lemma FenceToggles(s: Scan, line: string)
    requires Inv(s) && IsFence(line)
    ensures ParseLine(s, line) == AppendContent(s.(inCode := !s.inCode), line)
  {
  }

  /** The line-break rule: a content line is appended to the current accumulator after a
      single space (left out when the accumulator already ends in a space), and carries
      `\n` exactly when `NeedsLineBreak` holds, judged with the fence flag as it is after
      the line. Nothing but the accumulator and the fence flag changes. */
  lemma ContentLineRule(s: Scan, line: string)
    requires Inv(s) && !AwaitingHeading(s.mode)
    requires Classify(s.inCode, line) == ContentLine || Classify(s.inCode, line) == FenceLine
    ensures var inCode := s.inCode != IsFence(line);
      && ParseLine(s, line).Success?
      && ParseLine(s, line).value.inCode == inCode
      && ParseLine(s, line).value.mode == s.mode
      && Accumulator(ParseLine(s, line).value) ==
           Accumulator(s) + (if EndsWith(Accumulator(s), " ") then "" else " ")
             + line + (if NeedsLineBreak(inCode, line) then "\n" else "")
    ensures var inCode := s.inCode != IsFence(line); var t := ParseLine(s, line).value;
      && t == s.(inCode := inCode, body := t.body, fields := t.fields, footer := t.footer)
      && KeepsOtherAccumulators(s, t)
  {
    var inCode := s.inCode != IsFence(line);
    var flipped := s.(inCode := inCode);
    if Classify(s.inCode, line) == FenceLine {
      StepFence(s, line);
    } else {
      StepContent(s, line);
      assert flipped == s;
    }
    AppendAccumulates(flipped, line);
    assert Accumulator(flipped) == Accumulator(s);
    JoinedTerminated(Accumulator(s), inCode, line);
  }

  /** Inside a fence every line but the closing fence is content that keeps a hard break. */
  lemma LinesInFenceKeepBreaks(s: Scan, line: string)
    requires Inv(s) && s.inCode && !AwaitingHeading(s.mode) && !IsFence(line)
    ensures Accumulator(ParseLine(s, line).value) == Joined(Accumulator(s), line + "\n")
  {
    StepContent(s, line);
    AppendAccumulates(s, line);
  }

  /** A plain prose line: content that needs no hard break and does not end in a space. */
  predicate IsProse(line: string) {
    Classify(false, line) == ContentLine && !NeedsLineBreak(false, line) && !EndsWith(line, " ")
  }

  /** A content line in the body is joined onto the body and nothing else changes. */
  lemma BodyContentStep(s: Scan, line: string)
    requires Inv(s) && s.mode == Body && Classify(s.inCode, line) == ContentLine
    ensures ParseLine(s, line) == Success(s.(body := Joined(s.body, Terminated(s.inCode, line))))
  {
    StepContent(s, line);
  }

  /** A content line after a field heading is joined onto the last field's value. */
  lemma FieldContentStep(s: Scan, line: string)
    requires Inv(s) && s.mode == Field && Classify(s.inCode, line) == ContentLine
    ensures var last := s.fields[|s.fields| - 1];
      ParseLine(s, line) ==
        Success(s.(fields := s.fields[|s.fields| - 1 := last.(value := Joined(last.value, Terminated(s.inCode, line)))]))
  {
    var last := s.fields[|s.fields| - 1];
    var piece := Terminated(s.inCode, line);
    assert AppendContent(s, line) ==
      Success(s.(fields := s.fields[|s.fields| - 1 := last.(value := Joined(last.value, piece))]));
    StepContent(s, line);
  }

  /** A content line after a footer directive is joined onto the footer. */
  lemma FooterContentStep(s: Scan, line: string)
    requires Inv(s) && s.mode == Footer && Classify(s.inCode, line) == ContentLine
    ensures ParseLine(s, line) ==
      Success(s.(footer := Some(Joined(s.footer.GetOr(""), Terminated(s.inCode, line)))))
  {
    StepContent(s, line);
  }

  lemma JoinCons(prefix: string, lines: seq<string>, sep: string)
    requires |lines| > 1
    ensures prefix + lines[0] + sep + Join(lines[1..], sep) == prefix + Join(lines, sep)
  {
  }

  lemma EndsLikeLast(prefix: string, line: string)
    requires |line| > 0 && !EndsWith(line, " ")
    ensures !EndsWith(prefix + line, " ")
  {
    assert (prefix + line)[|prefix + line| - 1] == line[|line| - 1];
  }

  /** Soft wraps are undone: consecutive prose lines in the body are joined with single
      spaces, as one reflowed paragraph. */
  lemma {:induction false} ProseReflow(s: Scan, lines: seq<string>)
    requires Inv(s) && s.mode == Body && !s.inCode && !EndsWith(s.body, " ")
    requires |lines| >= 1
    requires forall k :: 0 <= k < |lines| ==> IsProse(lines[k])
    ensures Run(s, lines) == Success(s.(body := s.body + " " + Join(lines, " ")))
    decreases |lines|
  {
    var line := lines[0];
    assert IsProse(line);
    var next := s.(body := s.body + " " + line);
    BodyContentStep(s, line);
    JoinedTerminated(s.body, false, line);
    assert ParseLine(s, line) == Success(next);
    RunCons(s, lines);
    if |lines| == 1 {
      assert Run(next, lines[1..]) == Success(next);
    } else {
      assert |line| > 0;
      EndsLikeLast(s.body + " ", line);
      ProseReflow(next, lines[1..]);
      JoinCons(s.body + " ", lines, " ");
    }
  }

  /** The body text contributed by lines that each keep a hard break. */
  function HardLines(lines: seq<string>): string {
    if |lines| == 0 then "" else " " + lines[0] + "\n" + HardLines(lines[1..])
  }

  lemma HardLinesCons(body: string, lines: seq<string>)
    requires |lines| > 0
    ensures body + " " + lines[0] + "\n" + HardLines(lines[1..]) == body + HardLines(lines)
  {
  }

  /** Lines that each keep a hard break, such as the items of a bullet list, end up each
      followed by `\n` and preceded by one space. */
  lemma {:induction false} HardBreakLines(s: Scan, lines: seq<string>)
    requires Inv(s) && s.mode == Body && !s.inCode && !EndsWith(s.body, " ")
    requires forall k :: 0 <= k < |lines| ==>
      Classify(false, lines[k]) == ContentLine && NeedsLineBreak(false, lines[k])
    ensures Run(s, lines) == Success(s.(body := s.body + HardLines(lines)))
    decreases |lines|
  {
    if |lines| == 0 {
      assert s.(body := s.body + "") == s;
    } else {
      var line := lines[0];
      var next := s.(body := s.body + " " + line + "\n");
      BodyContentStep(s, line);
      JoinedTerminated(s.body, false, line);
      assert ParseLine(s, line) == Success(next);
      RunCons(s, lines);
      assert !EndsWith(next.body, " ") by {
        assert next.body[|next.body| - 1] == '\n';
      }
      HardBreakLines(next, lines[1..]);
      HardLinesCons(s.body, lines);
    }
  }

  // ---------------------------------------------------------------------------
  // Whole runs

  /** Reading `a + b` is reading `a`, then `b` from where `a` left off. */
  lemma {:induction false} RunAppend(s: Scan, a: seq<string>, b: seq<string>)
    requires Inv(s)
    ensures Run(s, a + b) ==
      match Run(s, a)
      case Failure(e) => Failure(e)
      case Success(m) => Run(m, b)
    decreases |a|
  {
    if |a| == 0 {
      assert a + b == b;
    } else {
      assert (a + b)[0] == a[0];
      assert (a + b)[1..] == a[1..] + b;
      match ParseLine(s, a[0])
      case Failure(e) =>
      case Success(next) => RunAppend(next, a[1..], b);
    }
  }

  /** A run that reaches `m` on `a` continues from `m` on whatever follows. */
  lemma RunThen(s: Scan, a: seq<string>, b: seq<string>, m: Scan)
    requires Inv(s) && Run(s, a) == Success(m)
    ensures Inv(m) && Run(s, a + b) == Run(m, b)
  {
    RunAppend(s, a, b);
  }

  /** The number of fence lines. */
  function FenceCount(lines: seq<string>): nat {
    if |lines| == 0 then 0 else (if IsFence(lines[0]) then 1 else 0) + FenceCount(lines[1..])
  }

  /** Whether there is an odd number of fence lines, as an exclusive or. */
  function OddFences(lines: seq<string>): bool {
    |lines| > 0 && (IsFence(lines[0]) != OddFences(lines[1..]))
  }

  lemma OddSuccessor(c: nat)
    ensures (c + 1) % 2 == 1 <==> c % 2 == 0
  {
  }

  /** The exclusive or is the parity of the count. */
  lemma {:induction false} OddFencesCount(lines: seq<string>)
    ensures OddFences(lines) <==> FenceCount(lines) % 2 == 1
    decreases |lines|
  {
    if |lines| > 0 {
      OddFencesCount(lines[1..]);
      if IsFence(lines[0]) {
        OddSuccessor(FenceCount(lines[1..]));
      }
    }
  }

  /** The first step of a run that succeeds: it succeeds, flips the flag on a fence, and
      the run goes on from the state it leaves. */
  lemma RunFirstStep(s: Scan, lines: seq<string>) returns (next: Scan)
    requires Inv(s) && |lines| > 0
    ensures Run(s, lines).Success? ==>
      && Inv(next) && next.inCode == (s.inCode != IsFence(lines[0]))
      && Run(s, lines) == Run(next, lines[1..])
  {
    RunCons(s, lines);
    next := s;
    var step := ParseLine(s, lines[0]);
    if step.Success? {
      next := step.value;
    }
  }

  /** Each fence line flips the flag once, whatever else the lines hold. */
  lemma {:induction false} FenceFlips(s: Scan, lines: seq<string>)
    requires Inv(s)
    ensures Run(s, lines).Success? ==> Run(s, lines).value.inCode == (s.inCode != OddFences(lines))
    decreases |lines|
  {
    if |lines| > 0 && Run(s, lines).Success? {
      var next := RunFirstStep(s, lines);
      FenceFlips(next, lines[1..]);
    }
  }

  /** After a run the flag is the starting flag flipped once per fence line. */
  lemma FenceParity(s: Scan, lines: seq<string>)
    requires Inv(s)
    ensures Run(s, lines).Success? ==>
      Run(s, lines).value.inCode == (s.inCode != (FenceCount(lines) % 2 == 1))
  {
    FenceFlips(s, lines);
    OddFencesCount(lines);
  }

  /** A document with an odd number of fence lines never parses; when every line is
      accepted, the failure is the unclosed code block. */
  lemma UnclosedFenceFails(content: string)
    requires FenceCount(SplitLines(content)) % 2 == 1
    ensures ParseArticle(content).Failure?
    ensures Run(Start, SplitLines(content)).Success? ==> ParseArticle(content) == Failure(UnclosedCodeBlock)
  {
    FenceParity(Start, SplitLines(content));
  }

  /** A content line writes at most the last field's value. */
  lemma AppendKeepsEarlierFields(s: Scan, line: string)
    requires Inv(s) && AppendContent(s, line).Success?
    ensures var r := AppendContent(s, line).value;
      forall k :: 0 <= k < |s.fields| - 1 ==> r.fields[k] == s.fields[k]
  {
  }

  /** A heading writes at most the last field's name or value. */
  lemma HeadingKeepsEarlierFields(s: Scan, line: string)
    requires Inv(s) && ParseHeading(s, line).Success?
    ensures var r := ParseHeading(s, line).value;
      && (forall k :: 0 <= k < |s.fields| - 1 ==> r.fields[k] == s.fields[k])
      && (forall k :: 0 <= k < |s.fields| ==> r.fields[k].inline == s.fields[k].inline)
  {
    var r := ParseHeading(s, line).value;
    match s.mode
    case BeforeTitle =>
    case BeforeField =>
      FieldHeading(s, line);
      forall k | 0 <= k < |s.fields| - 1 ensures r.fields[k] == s.fields[k] {
        assert r.fields[..|s.fields| - 1][k] == s.fields[..|s.fields| - 1][k];
      }
    case _ =>
      AppendKeepsEarlierFields(s, line);
  }

  /** A directive never touches a field that already exists. */
  lemma DirectiveKeepsFields(s: Scan, directive: string)
    requires Inv(s) && ParseDirective(s, directive).Success?
    ensures var r := ParseDirective(s, directive).value;
      forall k :: 0 <= k < |s.fields| ==> r.fields[k] == s.fields[k]
  {
    var r := ParseDirective(s, directive).value;
    if directive == "field" {
      assert r.fields == s.fields + [WikiField("", "", false)];
    } else if directive == "inline field" {
      assert r.fields == s.fields + [WikiField("", "", true)];
    } else if StartsWith(directive, "alias ") {
      AliasIsNoKeyword(directive);
      assert r.fields == s.fields;
    } else {
      assert r.fields == s.fields;
    }
  }

  /** One step keeps every field but the last as it was, and every inline flag. */
  lemma StepKeepsEarlierFields(s: Scan, line: string)
    requires Inv(s) && ParseLine(s, line).Success?
    ensures var r := ParseLine(s, line).value;
      && (forall k :: 0 <= k < |s.fields| - 1 ==> r.fields[k] == s.fields[k])
      && (forall k :: 0 <= k < |s.fields| ==> r.fields[k].inline == s.fields[k].inline)
  {
    match Classify(s.inCode, line)
    case FenceLine =>
      StepFence(s, line);
      AppendKeepsEarlierFields(s.(inCode := !s.inCode), line);
    case ContentLine =>
      StepContent(s, line);
      AppendKeepsEarlierFields(s, line);
    case HeadingLine =>
      StepHeading(s, line);
      HeadingKeepsEarlierFields(s, line);
    case DirectiveLine =>
      match DirectivePayload(Trim(line))
      case None =>
      case Some(directive) =>
        StepDirective(s, line, directive);
        DirectiveKeepsFields(s, directive);
  }

  /** Over a whole run, fields before the last one are never changed again and no field
      changes its kind: fields are only ever appended. */
  lemma {:induction false} RunKeepsEarlierFields(s: Scan, lines: seq<string>)
    requires Inv(s) && Run(s, lines).Success?
    ensures var r := Run(s, lines).value;
      && (forall k :: 0 <= k < |s.fields| - 1 ==> r.fields[k] == s.fields[k])
      && (forall k :: 0 <= k < |s.fields| ==> r.fields[k].inline == s.fields[k].inline)
    decreases |lines|
  {
    if |lines| > 0 {
      StepKeepsEarlierFields(s, lines[0]);
      var next := ParseLine(s, lines[0]).value;
      RunKeepsEarlierFields(next, lines[1..]);
    }
  }

  // ---------------------------------------------------------------------------
  // Finalisation and the accessors

  /** `parse_article` succeeds exactly when every line is accepted and the finalisation
      checks pass; the article is then the finalised scan and the accessors agree. */
  lemma ParseArticleRule(content: string)
    ensures var run := Run(Start, SplitLines(content));
      && (ParseArticle(content).Success? <==> run.Success? && CanFinalize(run.value))
      && (ParseArticle(content).Success? ==>
            && Finalize(run.value).Success?
            && ParseArticle(content).value.0 == Finalize(run.value).value.article
            && ParseArticle(content).value.1 == run.value.aliases)
  {
  }

  /** A dangling title or field directive at the end of the document fails. */
  lemma TrailingDirectiveFails(s: Scan)
    requires !s.inCode && AwaitingHeading(s.mode)
    ensures Finalize(s).Failure?
    ensures Finalize(s).error == if s.mode == BeforeTitle then TrailingTitleDirective else TrailingFieldDirective
  {
  }

  /** In `no embed` mode a footer with any text fails the article, while a footer that
      trims to nothing is kept as an empty footer. */
  lemma NoEmbedFooterRule(s: Scan)
    requires !s.inCode && !AwaitingHeading(s.mode) && s.title.Some? && s.title.value != ""
    requires s.noEmbed && Trim(s.body) != "" && |s.fields| == 0 && s.footer.Some?
    ensures Finalize(s).Success? <==> Trim(s.footer.value) == ""
    ensures Finalize(s).Success? ==> Finalize(s).value.article.footer == Some("")
    ensures Finalize(s).Failure? ==> Finalize(s).error == NoEmbedWithFooter
  {
  }

  /** The accessors of a finished parser give back exactly the article and the aliases it
      holds; a parser still scanning gets the not-done error from both. */
  lemma AccessorsAnswer(p: Parser)
    ensures p.Done? ==> Article(p) == Success(p.article) && ArticleAliases(p) == Success(p.aliases)
    ensures p.Scanning? ==> Article(p) == Failure(NotDone) && ArticleAliases(p) == Failure(NotDone)
  {
  }
}
