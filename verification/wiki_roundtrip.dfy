/** Writing an article back in the minimal directive syntax and reading it again gives
    the same article and aliases. The written form puts every part on its own line:
    the title directive and heading, one body line, each field's directive and name
    heading, the footer directive and footer line, the flag directives and one alias
    directive. */
module WikiRoundTrip {
  import opened Wrappers
  import opened Strings
  import opened Markup
  import opened Wiki
  import opened WikiLemmas

  /** Each field as its directive followed by its level-2 name heading. */
  function FieldLines(fields: seq<WikiField>): (r: seq<string>)
    ensures |r| == 2 * |fields|
  {
    if |fields| == 0 then [] else FieldPair(fields[0]) + FieldLines(fields[1..])
  }

  /** One field: its directive and its level-2 name heading. */
  function FieldPair(f: WikiField): seq<string> {
    [DirectiveText(FieldPayload(f.inline)), HeadingText(2, f.name)]
  }

  function TitleLines(title: string): seq<string> {
    [DirectiveText("title"), HeadingText(1, title)]
  }

  function BodyLines(body: Option<string>): seq<string> {
    match body
    case None => []
    case Some(b) => [b]
  }

  function FooterLines(footer: Option<string>): seq<string> {
    match footer
    case None => []
    case Some(f) => [DirectiveText("footer"), f]
  }

  function FlagLines(setAuthor: bool, noEmbed: bool): seq<string> {
    (if setAuthor then [DirectiveText("user author")] else [])
      + (if noEmbed then [DirectiveText("no embed")] else [])
  }

  function AliasLines(aliases: seq<string>): seq<string> {
    if |aliases| == 0 then [] else [DirectiveText("alias " + Join(aliases, ","))]
  }

  /** The title, the body and the fields. */
  function ContentLines(a: WikiArticle): seq<string> {
    TitleLines(a.title) + BodyLines(a.body) + FieldLines(a.fields)
  }

  /** The footer, the flags and the aliases. */
  function TrailerLines(a: WikiArticle, aliases: seq<string>): seq<string> {
    FooterLines(a.footer) + FlagLines(a.setAuthor, a.noEmbed) + AliasLines(aliases)
  }

  /** The minimal document for an article and an ordered list of its aliases. */
  function Serialize(a: WikiArticle, aliases: seq<string>): seq<string> {
    ContentLines(a) + TrailerLines(a, aliases)
  }

  /** A text that fits on one line of the written form and reads back as plain content. */
  predicate ContentText(t: string) {
    NoLineTerminator(t) && Classify(false, t) == ContentLine
  }

  /** What an article must look like for its written form to read back unchanged: a
      well-formed article whose texts are single lines, whose body and footer are plain
      content, whose fields have no value yet, and whose aliases are distinct, non-empty,
      trimmed and free of commas. */
  predicate Writable(a: WikiArticle, aliases: seq<string>) {
    && WellFormedArticle(a)
    && IsTrimmed(a.title) && NoLineTerminator(a.title)
    && (a.body.Some? ==> ContentText(a.body.value))
    && (forall k :: 0 <= k < |a.fields| ==>
          a.fields[k].value == "" && IsTrimmed(a.fields[k].name) && NoLineTerminator(a.fields[k].name))
    && (a.footer.Some? ==> ContentText(a.footer.value))
    && (forall k :: 0 <= k < |aliases| ==>
          aliases[k] != "" && IsTrimmed(aliases[k]) && ',' !in aliases[k] && NoLineTerminator(aliases[k]))
    && Distinct(aliases)
  }

  /** What a content line leaves in an empty accumulator. */
  function Accumulated(t: string): string {
    Joined("", Terminated(false, t))
  }

  /** The accumulated text trims back to the line, with or without its hard break. */
  lemma AccumulatedTrims(t: string)
    requires IsTrimmed(t)
    ensures Trim(Accumulated(t)) == t
  {
    assert !EndsWith("", " ");
    if NeedsLineBreak(false, t) {
      assert Accumulated(t) == " " + t + "\n";
      TrimPadded(" ", t, "\n");
    } else {
      assert Accumulated(t) == " " + t + "";
      TrimPadded(" ", t, "");
    }
  }

  // ---------------------------------------------------------------------------
  // Single lines

  lemma RunSingle(s: Scan, line: string)
    requires Inv(s)
    ensures Run(s, [line]) == ParseLine(s, line)
  {
    RunCons(s, [line]);
  }

  lemma RunPair(s: Scan, first: string, second: string)
    requires Inv(s) && ParseLine(s, first).Success?
    ensures Run(s, [first, second]) == ParseLine(ParseLine(s, first).value, second)
  {
    RunCons(s, [first, second]);
    assert [first, second][1..] == [second];
    RunSingle(ParseLine(s, first).value, second);
  }

  /** A directive in its minimal spelling reaches `parse_directive` with its payload. */
  lemma DirectiveLineStep(s: Scan, payload: string)
    requires Inv(s) && !s.inCode
    requires IsTrimmed(payload) && NoLineTerminator(payload)
    ensures ParseLine(s, DirectiveText(payload)) == ParseDirective(s, payload)
  {
    DirectiveRoundTrip(payload);
    StepDirective(s, DirectiveText(payload), payload);
  }

  // ---------------------------------------------------------------------------
  // Segments

  lemma TitleRun(s: Scan, title: string)
    requires Inv(s) && !s.inCode && s.mode == Body
    requires IsTrimmed(title)
    ensures Run(s, TitleLines(title)) == Success(s.(title := Some(title)))
  {
    DirectiveLineStep(s, "title");
    var m := s.(mode := BeforeTitle);
    assert ParseLine(s, DirectiveText("title")) == Success(m);
    HeadingRoundTrip(1, title);
    TitleHeadingRule(m, HeadingText(1, title));
    RunPair(s, DirectiveText("title"), HeadingText(1, title));
  }

  lemma BodyRun(s: Scan, body: Option<string>)
    requires Inv(s) && !s.inCode && s.mode == Body && s.body == ""
    requires body.Some? ==> ContentText(body.value)
    ensures Run(s, BodyLines(body)) ==
      Success(s.(body := if body.Some? then Accumulated(body.value) else ""))
  {
    if body.Some? {
      BodyContentStep(s, body.value);
      RunSingle(s, body.value);
    } else {
      assert s.(body := "") == s;
    }
  }

  lemma Snoc<T>(a: seq<T>, b: seq<T>, x: T)
    requires |a| == |b| + 1 && a[..|b|] == b && a[|b|] == x
    ensures a == b + [x]
  {
  }

  function FieldPayload(inline: bool): string {
    if inline then "inline field" else "field"
  }

  lemma FieldDirectiveLine(s: Scan, inline: bool)
    requires Inv(s) && !s.inCode
    ensures ParseLine(s, DirectiveText(FieldPayload(inline))) ==
      Success(s.(fields := s.fields + [WikiField("", "", inline)], mode := BeforeField))
  {
    DirectiveLineStep(s, FieldPayload(inline));
  }

  lemma FieldNameLine(s: Scan, name: string)
    requires Inv(s) && !s.inCode && s.mode == BeforeField && IsTrimmed(name)
    ensures var n := |s.fields| - 1;
      ParseLine(s, HeadingText(2, name)) ==
        Success(s.(fields := s.fields[..n] + [s.fields[n].(name := name)], mode := Field))
  {
    var line := HeadingText(2, name);
    HeadingRoundTrip(2, name);
    FieldNameRule(s, line);
    var n := |s.fields| - 1;
    var r := ParseLine(s, line).value;
    Snoc(r.fields, s.fields[..n], s.fields[n].(name := name));
  }

  /** One field: the directive pushes an empty field, the heading names it. */
  lemma OneFieldRun(s: Scan, f: WikiField)
    requires Inv(s) && !s.inCode
    requires f.value == "" && IsTrimmed(f.name)
    ensures Run(s, FieldPair(f)) == Success(s.(fields := s.fields + [f], mode := Field))
  {
    FieldDirectiveLine(s, f.inline);
    var m := s.(fields := s.fields + [WikiField("", "", f.inline)], mode := BeforeField);
    FieldNameLine(m, f.name);
    assert m.fields[..|s.fields|] == s.fields;
    RunPair(s, DirectiveText(FieldPayload(f.inline)), HeadingText(2, f.name));
  }

  lemma AppendFirst<T>(a: seq<T>, b: seq<T>)
    requires |b| > 0
    ensures a + [b[0]] + b[1..] == a + b
  {
  }

  lemma {:induction false} FieldsRun(s: Scan, fields: seq<WikiField>)
    requires Inv(s) && !s.inCode && !AwaitingHeading(s.mode)
    requires forall k :: 0 <= k < |fields| ==> fields[k].value == "" && IsTrimmed(fields[k].name)
    ensures Run(s, FieldLines(fields)) ==
      Success(s.(fields := s.fields + fields, mode := if |fields| == 0 then s.mode else Field))
    decreases |fields|
  {
    if |fields| == 0 {
      assert s.fields + fields == s.fields;
    } else {
      OneFieldRun(s, fields[0]);
      var m := s.(fields := s.fields + [fields[0]], mode := Field);
      FieldsRun(m, fields[1..]);
      RunThen(s, FieldPair(fields[0]), FieldLines(fields[1..]), m);
      AppendFirst(s.fields, fields);
    }
  }

  lemma FooterRun(s: Scan, footer: Option<string>)
    requires Inv(s) && !s.inCode && !AwaitingHeading(s.mode) && s.footer.None?
    requires footer.Some? ==> ContentText(footer.value)
    ensures Run(s, FooterLines(footer)) ==
      if footer.Some? then Success(s.(footer := Some(Accumulated(footer.value)), mode := Footer))
      else Success(s)
  {
    if footer.Some? {
      var s1 := s.(mode := Footer);
      FooterLine(s);
      FooterContentStep(s1, footer.value);
      assert ParseLine(s1, footer.value) == Success(s1.(footer := Some(Accumulated(footer.value))));
      RunPair(s, DirectiveText("footer"), footer.value);
    }
  }

  lemma FooterDirective(s: Scan)
    requires Inv(s)
    ensures ParseDirective(s, "footer") == Success(s.(mode := Footer))
  {
    assert "footer" != "title" && "footer" != "field" && "footer" != "inline field";
  }

  lemma FooterLine(s: Scan)
    requires Inv(s) && !s.inCode
    ensures ParseLine(s, DirectiveText("footer")) == Success(s.(mode := Footer))
  {
    DirectiveLineStep(s, "footer");
    FooterDirective(s);
  }

  lemma UserAuthorLine(s: Scan)
    requires Inv(s) && !s.inCode
    ensures ParseLine(s, DirectiveText("user author")) == Success(s.(setAuthor := true))
  {
    DirectiveLineStep(s, "user author");
  }

  lemma NoEmbedLine(s: Scan)
    requires Inv(s) && !s.inCode
    ensures ParseLine(s, DirectiveText("no embed")) == Success(s.(noEmbed := true))
  {
    DirectiveLineStep(s, "no embed");
  }

  lemma FlagRun(s: Scan, setAuthor: bool, noEmbed: bool)
    requires Inv(s) && !s.inCode && !s.setAuthor && !s.noEmbed
    ensures Run(s, FlagLines(setAuthor, noEmbed)) == Success(s.(setAuthor := setAuthor, noEmbed := noEmbed))
  {
    var a := if setAuthor then [DirectiveText("user author")] else [];
    var b := if noEmbed then [DirectiveText("no embed")] else [];
    var m := s.(setAuthor := setAuthor);
    if setAuthor {
      UserAuthorLine(s);
      RunSingle(s, DirectiveText("user author"));
    } else {
      assert m == s;
    }
    if noEmbed {
      NoEmbedLine(m);
      RunSingle(m, DirectiveText("no embed"));
    } else {
      assert m.(noEmbed := noEmbed) == m;
    }
    RunAppend(s, a, b);
  }

  /** The last character of a join of trimmed, non-empty parts is not blank. */
  lemma JoinEndsSolid(parts: seq<string>, sep: string)
    requires |parts| >= 1
    requires parts[|parts| - 1] != "" && IsTrimmed(parts[|parts| - 1])
    ensures var j := Join(parts, sep); |j| > 0 && !IsWhitespace(j[|j| - 1])
  {
    var j := Join(parts, sep);
    var last := parts[|parts| - 1];
    JoinEndsWithLast(parts, sep);
    assert j[|j| - |last|..][|last| - 1] == last[|last| - 1];
  }

  lemma AliasLiterals()
    ensures NoLineTerminator(",") && NoLineTerminator("alias ")
  {
  }

  /** The payload of the alias directive is a trimmed single line. */
  lemma AliasPayload(aliases: seq<string>)
    requires |aliases| >= 1
    requires forall k :: 0 <= k < |aliases| ==> aliases[k] != "" && IsTrimmed(aliases[k]) && NoLineTerminator(aliases[k])
    ensures IsTrimmed("alias " + Join(aliases, ",")) && NoLineTerminator("alias " + Join(aliases, ","))
  {
    AliasPayloadTrimmed(aliases);
    AliasLiterals();
    JoinNoLineTerminator(aliases, ",");
    NoLineTerminatorConcat("alias ", Join(aliases, ","));
  }

  lemma AliasPayloadTrimmed(aliases: seq<string>)
    requires |aliases| >= 1
    requires aliases[|aliases| - 1] != "" && IsTrimmed(aliases[|aliases| - 1])
    ensures IsTrimmed("alias " + Join(aliases, ","))
  {
    JoinEndsSolid(aliases, ",");
    AliasPrefixTrimmed(Join(aliases, ","));
  }

  lemma AliasPrefixTrimmed(list: string)
    requires |list| > 0 && !IsWhitespace(list[|list| - 1])
    ensures IsTrimmed("alias " + list)
  {
    var d := "alias " + list;
    assert d[0] == 'a' && d[|d| - 1] == list[|list| - 1];
  }

  lemma AliasRun(s: Scan, aliases: seq<string>)
    requires Inv(s) && !s.inCode && s.aliases == {}
    requires forall k :: 0 <= k < |aliases| ==>
      aliases[k] != "" && IsTrimmed(aliases[k]) && ',' !in aliases[k] && NoLineTerminator(aliases[k])
    requires Distinct(aliases)
    ensures Run(s, AliasLines(aliases)) == Success(s.(aliases := set n | n in aliases))
  {
    if |aliases| == 0 {
      assert (set n | n in aliases) == {};
      assert s.(aliases := {}) == s;
    } else {
      var payload := "alias " + Join(aliases, ",");
      var names := set n | n in aliases;
      AliasPayload(aliases);
      DirectiveLineStep(s, payload);
      UnpaddedList(aliases);
      AliasDirectiveRule(s, Blanks(|aliases|), aliases, Blanks(|aliases|));
      assert ParseDirective(s, payload).Success?;
      assert s.aliases + names == names;
      assert ParseLine(s, DirectiveText(payload)) == Success(s.(aliases := names));
      RunSingle(s, DirectiveText(payload));
    }
  }

  // ---------------------------------------------------------------------------
  // The whole document

  /** The body accumulator after the body line, if any. */
  function BodyText(body: Option<string>): string {
    if body.Some? then Accumulated(body.value) else ""
  }

  /** The scan after the title, the body and the fields. */
  function ContentScan(a: WikiArticle): Scan {
    Scan(if |a.fields| == 0 then Body else Field, false, Some(a.title), BodyText(a.body), a.fields,
      None, false, false, {})
  }

  /** The scan at the end of the written form of `a`. */
  function FinalScan(a: WikiArticle, aliases: seq<string>): Scan {
    var s := ContentScan(a);
    s.(mode := if a.footer.Some? then Footer else s.mode,
       footer := if a.footer.Some? then Some(Accumulated(a.footer.value)) else None,
       setAuthor := a.setAuthor,
       noEmbed := a.noEmbed,
       aliases := set n | n in aliases)
  }

  lemma ContentRun(a: WikiArticle)
    requires IsTrimmed(a.title) && (a.body.Some? ==> ContentText(a.body.value))
    requires forall k :: 0 <= k < |a.fields| ==> a.fields[k].value == "" && IsTrimmed(a.fields[k].name)
    ensures Run(Start, ContentLines(a)) == Success(ContentScan(a))
  {
    var t := TitleLines(a.title);
    var b := BodyLines(a.body);
    var s1 := Start.(title := Some(a.title));
    TitleRun(Start, a.title);
    var s2 := s1.(body := BodyText(a.body));
    BodyRun(s1, a.body);
    RunThen(Start, t, b, s1);
    FieldsRun(s2, a.fields);
    assert s2.fields + a.fields == a.fields;
    var s3 := s2.(fields := a.fields, mode := if |a.fields| == 0 then Body else Field);
    assert Run(s2, FieldLines(a.fields)) == Success(s3);
    assert s3 == ContentScan(a);
    RunThen(Start, t + b, FieldLines(a.fields), s2);
  }

  lemma TrailerRun(a: WikiArticle, aliases: seq<string>)
    requires Writable(a, aliases)
    ensures Run(ContentScan(a), TrailerLines(a, aliases)) == Success(FinalScan(a, aliases))
  {
    var s := ContentScan(a);
    var o := FooterLines(a.footer);
    var g := FlagLines(a.setAuthor, a.noEmbed);
    FooterRun(s, a.footer);
    var s4 := if a.footer.Some? then s.(footer := Some(Accumulated(a.footer.value)), mode := Footer) else s;
    FlagRun(s4, a.setAuthor, a.noEmbed);
    RunThen(s, o, g, s4);
    var s5 := s4.(setAuthor := a.setAuthor, noEmbed := a.noEmbed);
    AliasRun(s5, aliases);
    RunThen(s, o + g, AliasLines(aliases), s5);
  }

  lemma SerializeRun(a: WikiArticle, aliases: seq<string>)
    requires Writable(a, aliases)
    ensures Run(Start, Serialize(a, aliases)) == Success(FinalScan(a, aliases))
  {
    ContentRun(a);
    TrailerRun(a, aliases);
    RunThen(Start, ContentLines(a), TrailerLines(a, aliases), ContentScan(a));
  }

  predicate SingleLines(lines: seq<string>) {
    forall k :: 0 <= k < |lines| ==> NoLineTerminator(lines[k])
  }

  lemma SingleLinesConcat(a: seq<string>, b: seq<string>)
    requires SingleLines(a) && SingleLines(b)
    ensures SingleLines(a + b)
  {
    forall k | 0 <= k < |a + b| ensures NoLineTerminator((a + b)[k]) {
      if k >= |a| {
        assert (a + b)[k] == b[k - |a|];
      }
    }
  }

  lemma KeywordLiterals()
    ensures NoLineTerminator("<!-- ") && NoLineTerminator(" -->") && NoLineTerminator(" ")
    ensures NoLineTerminator("title") && NoLineTerminator("field") && NoLineTerminator("inline field")
    ensures NoLineTerminator("footer") && NoLineTerminator("user author") && NoLineTerminator("no embed")
  {
  }

  lemma DirectiveSingleLine(payload: string)
    requires NoLineTerminator(payload)
    ensures NoLineTerminator(DirectiveText(payload))
  {
    KeywordLiterals();
    NoLineTerminatorConcat("<!-- ", payload);
    NoLineTerminatorConcat("<!-- " + payload, " -->");
  }

  lemma HeadingSingleLine(level: nat, text: string)
    requires NoLineTerminator(text)
    ensures NoLineTerminator(HeadingText(level, text))
  {
    KeywordLiterals();
    var h := Hashes(level);
    assert NoLineTerminator(h);
    NoLineTerminatorConcat(h, " ");
    NoLineTerminatorConcat(h + " ", text);
  }

  lemma {:induction false} FieldLinesSingle(fields: seq<WikiField>)
    requires forall k :: 0 <= k < |fields| ==> NoLineTerminator(fields[k].name)
    ensures SingleLines(FieldLines(fields))
    decreases |fields|
  {
    if |fields| > 0 {
      KeywordLiterals();
      DirectiveSingleLine(FieldPayload(fields[0].inline));
      HeadingSingleLine(2, fields[0].name);
      FieldLinesSingle(fields[1..]);
      SingleLinesConcat(FieldPair(fields[0]), FieldLines(fields[1..]));
    }
  }

  lemma ContentSingleLines(a: WikiArticle, aliases: seq<string>)
    requires Writable(a, aliases)
    ensures SingleLines(ContentLines(a))
  {
    KeywordLiterals();
    DirectiveSingleLine("title");
    HeadingSingleLine(1, a.title);
    FieldLinesSingle(a.fields);
    SingleLinesConcat(TitleLines(a.title), BodyLines(a.body));
    SingleLinesConcat(TitleLines(a.title) + BodyLines(a.body), FieldLines(a.fields));
  }

  lemma TrailerSingleLines(a: WikiArticle, aliases: seq<string>)
    requires Writable(a, aliases)
    ensures SingleLines(TrailerLines(a, aliases))
  {
    FooterSingleLines(a.footer);
    FlagSingleLines(a.setAuthor, a.noEmbed);
    AliasSingleLines(aliases);
    SingleLinesConcat(FooterLines(a.footer), FlagLines(a.setAuthor, a.noEmbed));
    SingleLinesConcat(FooterLines(a.footer) + FlagLines(a.setAuthor, a.noEmbed), AliasLines(aliases));
  }

  lemma FooterSingleLines(footer: Option<string>)
    requires footer.Some? ==> NoLineTerminator(footer.value)
    ensures SingleLines(FooterLines(footer))
  {
    KeywordLiterals();
    DirectiveSingleLine("footer");
  }

  lemma FlagSingleLines(setAuthor: bool, noEmbed: bool)
    ensures SingleLines(FlagLines(setAuthor, noEmbed))
  {
    KeywordLiterals();
    DirectiveSingleLine("user author");
    DirectiveSingleLine("no embed");
    var g1 := if setAuthor then [DirectiveText("user author")] else [];
    var g2 := if noEmbed then [DirectiveText("no embed")] else [];
    SingleLinesConcat(g1, g2);
  }

  lemma AliasSingleLines(aliases: seq<string>)
    requires forall k :: 0 <= k < |aliases| ==> aliases[k] != "" && IsTrimmed(aliases[k]) && NoLineTerminator(aliases[k])
    ensures SingleLines(AliasLines(aliases))
  {
    if |aliases| > 0 {
      AliasPayload(aliases);
      DirectiveSingleLine("alias " + Join(aliases, ","));
    }
  }

  /** Every line of the written form is a single line. */
  lemma SerializeSingleLines(a: WikiArticle, aliases: seq<string>)
    requires Writable(a, aliases)
    ensures SingleLines(Serialize(a, aliases))
  {
    ContentSingleLines(a, aliases);
    TrailerSingleLines(a, aliases);
    SingleLinesConcat(ContentLines(a), TrailerLines(a, aliases));
  }

  /** The end of the written form passes every finalisation check and yields the article. */
  lemma FinalizeWritten(a: WikiArticle, aliases: seq<string>)
    requires Writable(a, aliases)
    ensures Finalize(FinalScan(a, aliases)) == Success(Done(a, set n | n in aliases))
  {
    var s := FinalScan(a, aliases);
    if a.body.Some? {
      AccumulatedTrims(a.body.value);
    } else {
      TrimOfTrimmed("");
    }
    if a.footer.Some? {
      AccumulatedTrims(a.footer.value);
    }
    assert CanFinalize(s);
    var r := Finalize(s).value;
    assert r.article == a;
  }

  /** `Join` and `SplitLines` undo each other on the written form. */
  lemma SerializeSplits(a: WikiArticle, aliases: seq<string>)
    requires Writable(a, aliases)
    ensures SplitLines(Join(Serialize(a, aliases), "\n")) == Serialize(a, aliases)
  {
    var lines := Serialize(a, aliases);
    SerializeSingleLines(a, aliases);
    forall k | 0 <= k < |lines| ensures '\n' !in lines[k] && !EndsWith(lines[k], "\r") {
      SingleLine(lines[k]);
    }
    SplitLinesJoin(lines);
  }

  /** The round trip: reading the written form of a writable article gives back the
      article and the set of its aliases. */
  lemma SerializeParse(a: WikiArticle, aliases: seq<string>)
    requires Writable(a, aliases)
    ensures ParseArticle(Join(Serialize(a, aliases), "\n")) == Success((a, set n | n in aliases))
  {
    var content := Join(Serialize(a, aliases), "\n");
    SerializeSplits(a, aliases);
    SerializeRun(a, aliases);
    FinalizeWritten(a, aliases);
    ParseArticleRule(content);
  }
}
