/** The wiki article parser: a single pass over the lines of one document that
    drives a small state machine, followed by a finalisation step that either yields
    the article and its aliases or reports the first rule the document breaks. */
module Wiki {
  import opened Wrappers
  import opened Strings
  import opened Markup

  /** One embed field. `name` and `value` start empty and are filled in later lines. */
  datatype WikiField = WikiField(name: string, value: string, inline: bool)

  /** The parsed article; `body` and `footer` are trimmed, `body` is absent when empty. */
  datatype WikiArticle = WikiArticle(
    title: string,
    body: Option<string>,
    fields: seq<WikiField>,
    footer: Option<string>,
    setAuthor: bool,
    noEmbed: bool)

  /** The scanning values of `parse_state`. `done` is the `Done` parser below. */
  datatype Mode = Body | Field | Footer | BeforeTitle | BeforeField

  /** The working state of `ArticleParser` while lines are being read. */
  datatype Scan = Scan(
    mode: Mode,
    inCode: bool,
    title: Option<string>,
    body: string,
    fields: seq<WikiField>,
    footer: Option<string>,
    setAuthor: bool,
    noEmbed: bool,
    aliases: set<string>)

  /** A parser is either still scanning or done; only a done parser has an article. */
  datatype Parser = Scanning(scan: Scan) | Done(article: WikiArticle, aliases: set<string>)

  /** One constructor per failing assertion of the parser. */
  datatype ParseError =
    | UnclosedCodeBlock
    | TrailingTitleDirective
    | TrailingFieldDirective
    | MissingTitle
    | NoEmbedWithoutBody
    | NoEmbedWithFooter
    | NoEmbedWithFields
    | HeadingWithoutLevel
    | TitleNotLevelOne
    | FieldNameNotLevelTwo
    | TitleDirectiveOutsideBody
    | DuplicateAlias(alias: string)
    | MalformedDirective
    | ContentWhileAwaitingHeading
    | NotDone

  /** A fresh parser after `parse` has set the body accumulator to the empty string. */
  const Start: Scan := Scan(Body, false, None, "", [], None, false, false, {})

  /** The field modes always have a field to write to: they are entered only by
      pushing a field. */
  predicate Inv(s: Scan) {
    (s.mode == Field || s.mode == BeforeField) ==> |s.fields| > 0
  }

  predicate AwaitingHeading(m: Mode) {
    m == BeforeTitle || m == BeforeField
  }

  /** The joiner of `parse_regular_line`: the piece is appended after a single space,
      which is left out when the accumulator already ends in one. */
  function Joined(acc: string, piece: string): string {
    acc + (if EndsWith(acc, " ") then "" else " ") + piece
  }

  /** The joined text keeps the accumulator, ends with the piece, and has exactly one
      space-terminated separator between them: the accumulator's own trailing space or
      one inserted. */
  lemma JoinedSpec(acc: string, piece: string)
    ensures var r := Joined(acc, piece);
      && StartsWith(r, acc) && EndsWith(r, piece)
      && EndsWith(r[..|r| - |piece|], " ")
      && |r| == |acc| + |piece| + (if EndsWith(acc, " ") then 0 else 1)
  {
    var r := Joined(acc, piece);
    assert r[..|acc|] == acc;
    assert r[|r| - |piece|..] == piece;
    assert r[..|r| - |piece|] == acc + (if EndsWith(acc, " ") then "" else " ");
  }

  /** Replacing the value of the last field keeps every earlier field and every name and kind. */
  lemma SetLastValue(fields: seq<WikiField>, value: string)
    requires |fields| > 0
    ensures var t := fields[|fields| - 1 := fields[|fields| - 1].(value := value)];
      && |t| == |fields|
      && (forall k :: 0 <= k < |fields| - 1 ==> t[k] == fields[k])
      && (forall k :: 0 <= k < |fields| ==> t[k].name == fields[k].name && t[k].inline == fields[k].inline)
  {
  }

  /** `t` keeps every accumulator of `s` except the one `s`'s mode writes to, and every
      field but the last. */
  predicate KeepsOtherAccumulators(s: Scan, t: Scan) {
    && (s.mode != Body ==> t.body == s.body)
    && (s.mode != Footer ==> t.footer == s.footer)
    && (s.mode != Field ==> t.fields == s.fields)
    && |t.fields| == |s.fields|
    && forall k :: 0 <= k < |s.fields| - 1 ==> t.fields[k] == s.fields[k]
  }

  /** `parse_regular_line`: a content line goes to the body, the last field's value or
      the footer, depending on the mode; it is an error while a heading is awaited. */
  function AppendContent(s: Scan, line: string): (r: Result<Scan, ParseError>)
    requires Inv(s)
    ensures r.Success? <==> !AwaitingHeading(s.mode)
    ensures r.Failure? ==> r.error == ContentWhileAwaitingHeading
    ensures r.Success? ==>
      && r.value == s.(body := r.value.body, fields := r.value.fields, footer := r.value.footer)
      && |r.value.fields| == |s.fields|
      && (forall k :: 0 <= k < |s.fields| ==>
            r.value.fields[k].name == s.fields[k].name && r.value.fields[k].inline == s.fields[k].inline)
    ensures r.Success? ==> KeepsOtherAccumulators(s, r.value)
  {
    var piece := Terminated(s.inCode, line);
    match s.mode
    case Body => Success(s.(body := Joined(s.body, piece)))
    case Field =>
      var last := s.fields[|s.fields| - 1];
      var value := Joined(last.value, piece);
      SetLastValue(s.fields, value);
      Success(s.(fields := s.fields[|s.fields| - 1 := last.(value := value)]))
    case Footer => Success(s.(footer := Some(Joined(s.footer.GetOr(""), piece))))
    case BeforeTitle => Failure(ContentWhileAwaitingHeading)
    case BeforeField => Failure(ContentWhileAwaitingHeading)
  }

  /** `parse_heading`: a title heading after a title directive, a field name after a
      field directive, and otherwise an ordinary content line. */
  function ParseHeading(s: Scan, line: string): (r: Result<Scan, ParseError>)
    requires Inv(s)
    ensures r.Success? ==>
      && Inv(r.value) && r.value.inCode == s.inCode
      && r.value.aliases == s.aliases && |r.value.fields| == |s.fields|
  {
    var level := HeadingLevel(line);
    if level < 1 then Failure(HeadingWithoutLevel)
    else
      match s.mode
      case BeforeTitle =>
        if level == 1 then Success(s.(title := Some(Trim(line[1..])), mode := Body))
        else Failure(TitleNotLevelOne)
      case BeforeField =>
        if level == 2 then
          var last := s.fields[|s.fields| - 1];
          Success(s.(fields := s.fields[|s.fields| - 1 := last.(name := Trim(line[2..]))], mode := Field))
        else Failure(FieldNameNotLevelTwo)
      case _ => AppendContent(s, line)
  }

  /** The aliases of an `alias` directive: the text after `alias `, split on commas,
      each part trimmed. */
  function AliasNames(directive: string): (r: seq<string>)
    requires StartsWith(directive, "alias ")
    ensures |r| >= 1 && forall k :: 0 <= k < |r| ==> IsTrimmed(r[k])
  {
    var parts := Split(directive[6..], ',');
    seq(|parts|, k requires 0 <= k < |parts| => Trim(parts[k]))
  }

  predicate Distinct(names: seq<string>) {
    forall i, j :: 0 <= i < j < |names| ==> names[i] != names[j]
  }

  /** Adds the aliases one by one; an alias already present, from an earlier directive
      or earlier in the same list, fails. */
  function AddAliases(known: set<string>, names: seq<string>): (r: Result<set<string>, ParseError>)
    ensures r.Success? <==> Distinct(names) && forall k :: 0 <= k < |names| ==> names[k] !in known
    ensures r.Success? ==> r.value == known + set n | n in names
    ensures r.Failure? ==> r.error.DuplicateAlias? && r.error.alias in names
    decreases |names|
  {
    if |names| == 0 then Success(known)
    else if names[0] in known then Failure(DuplicateAlias(names[0]))
    else
      var r := AddAliases(known + {names[0]}, names[1..]);
      NamesCons(names);
      r
  }

  /** A list of names as its first name and the rest. */
  lemma NamesCons(names: seq<string>)
    requires |names| > 0
    ensures (set n | n in names) == {names[0]} + set n | n in names[1..]
    ensures Distinct(names) <==> Distinct(names[1..]) && names[0] !in names[1..]
  {
    assert names == [names[0]] + names[1..];
    if Distinct(names[1..]) && names[0] !in names[1..] {
      forall i, j | 0 <= i < j < |names| ensures names[i] != names[j] {
        if i > 0 {
          assert names[i] == names[1..][i - 1] && names[j] == names[1..][j - 1];
        } else {
          assert names[j] == names[1..][j - 1];
        }
      }
    }
  }

  /** `parse_directive`: the payload is matched against a fixed vocabulary; anything else
      is ignored. */
  function ParseDirective(s: Scan, directive: string): (r: Result<Scan, ParseError>)
    requires Inv(s)
    ensures r.Success? ==>
      && Inv(r.value) && r.value.inCode == s.inCode
      && s.aliases <= r.value.aliases && |s.fields| <= |r.value.fields|
  {
    if directive == "title" then
      if s.mode == Body then Success(s.(mode := BeforeTitle)) else Failure(TitleDirectiveOutsideBody)
    else if directive == "field" then
      Success(s.(fields := s.fields + [WikiField("", "", false)], mode := BeforeField))
    else if directive == "inline field" then
      Success(s.(fields := s.fields + [WikiField("", "", true)], mode := BeforeField))
    else if directive == "footer" then
      Success(s.(mode := Footer))
    else if directive == "user author" then
      Success(s.(setAuthor := true))
    else if directive == "no embed" then
      Success(s.(noEmbed := true))
    else if StartsWith(directive, "alias ") then
      match AddAliases(s.aliases, AliasNames(directive))
      case Failure(e) => Failure(e)
      case Success(aliases) => Success(s.(aliases := aliases))
    else
      Success(s)
  }

  /** `parse_line`: one step of the state machine. */
  function ParseLine(s: Scan, line: string): (r: Result<Scan, ParseError>)
    requires Inv(s)
    ensures r.Success? ==> Inv(r.value)
    ensures r.Success? ==> r.value.inCode == (s.inCode != IsFence(line))
    ensures r.Success? ==> s.aliases <= r.value.aliases && |s.fields| <= |r.value.fields|
  {
    match Classify(s.inCode, line)
    case FenceLine => AppendContent(s.(inCode := !s.inCode), line)
    case HeadingLine => ParseHeading(s, line)
    case DirectiveLine =>
      (match DirectivePayload(Trim(line))
       case None => Failure(MalformedDirective)
       case Some(directive) => ParseDirective(s, directive))
    case ContentLine => AppendContent(s, line)
  }

  /** The loop of `parse`: every line in order, stopping at the first failure. */
  function Run(s: Scan, lines: seq<string>): (r: Result<Scan, ParseError>)
    requires Inv(s)
    ensures r.Success? ==> Inv(r.value)
    ensures r.Success? ==> s.aliases <= r.value.aliases && |s.fields| <= |r.value.fields|
    decreases |lines|
  {
    if |lines| == 0 then Success(s)
    else
      match ParseLine(s, lines[0])
      case Failure(e) => Failure(e)
      case Success(next) => Run(next, lines[1..])
  }

  /** The checks at the end of `parse`, in the source's order. */
  predicate CanFinalize(s: Scan) {
    && !s.inCode
    && !AwaitingHeading(s.mode)
    && s.title.Some? && s.title.value != ""
    && (s.noEmbed ==>
          && Trim(s.body) != ""
          && (s.footer.None? || Trim(s.footer.value) == "")
          && |s.fields| == 0)
  }

  /** The end of `parse`: closes the scan, trims body and footer, and checks the
      article is complete. */
  function Finalize(s: Scan): (r: Result<Parser, ParseError>)
    ensures r.Success? <==> CanFinalize(s)
    ensures r.Success? ==> r.value.Done? && r.value.aliases == s.aliases
    ensures r.Success? ==>
      var a := r.value.article;
      && Some(a.title) == s.title
      && (a.body.Some? <==> Trim(s.body) != "")
      && (a.body.Some? ==> a.body.value == Trim(s.body))
      && a.footer.Some? == s.footer.Some?
      && (a.footer.Some? ==> a.footer.value == Trim(s.footer.value))
      && a.fields == s.fields && a.setAuthor == s.setAuthor && a.noEmbed == s.noEmbed
    ensures s.inCode ==> r == Failure(UnclosedCodeBlock)
    ensures !s.inCode && s.mode == BeforeTitle ==> r == Failure(TrailingTitleDirective)
    ensures !s.inCode && s.mode == BeforeField ==> r == Failure(TrailingFieldDirective)
  {
    if s.inCode then Failure(UnclosedCodeBlock)
    else if s.mode == BeforeTitle then Failure(TrailingTitleDirective)
    else if s.mode == BeforeField then Failure(TrailingFieldDirective)
    else
      var trimmedBody := Trim(s.body);
      var body := if trimmedBody == "" then None else Some(trimmedBody);
      if s.title.None? || s.title.value == "" then Failure(MissingTitle)
      else
        var footer := match s.footer { case None => None case Some(f) => Some(Trim(f)) };
        if s.noEmbed && body.None? then Failure(NoEmbedWithoutBody)
        else if s.noEmbed && footer.Some? && footer.value != "" then Failure(NoEmbedWithFooter)
        else if s.noEmbed && |s.fields| != 0 then Failure(NoEmbedWithFields)
        else
          Success(Done(WikiArticle(s.title.value, body, s.fields, footer, s.setAuthor, s.noEmbed), s.aliases))
  }

  /** The `article` accessor: valid only once parsing is done. */
  function Article(p: Parser): (r: Result<WikiArticle, ParseError>)
    ensures r.Success? <==> p.Done?
    ensures r.Failure? ==> r.error == NotDone
  {
    if p.Done? then Success(p.article) else Failure(NotDone)
  }

  /** The `article_aliases` accessor: valid only once parsing is done. */
  function ArticleAliases(p: Parser): (r: Result<set<string>, ParseError>)
    ensures r.Success? <==> p.Done?
    ensures r.Failure? ==> r.error == NotDone
  {
    if p.Done? then Success(p.aliases) else Failure(NotDone)
  }

  /** What every parsed article satisfies. */
  predicate WellFormedArticle(a: WikiArticle) {
    && a.title != ""
    && (a.body.Some? ==> a.body.value != "" && IsTrimmed(a.body.value))
    && (a.footer.Some? ==> IsTrimmed(a.footer.value))
    && (a.noEmbed ==> a.body.Some? && (a.footer.None? || a.footer.value == "") && a.fields == [])
  }

  /** `parse_article`: split into lines, scan, finalise, read the results. */
  function ParseArticle(content: string): (r: Result<(WikiArticle, set<string>), ParseError>)
    ensures r.Success? ==> WellFormedArticle(r.value.0)
  {
    var s :- Run(Start, SplitLines(content));
    var p :- Finalize(s);
    match (Article(p), ArticleAliases(p))
    case (Success(article), Success(aliases)) => Success((article, aliases))
    case _ => Failure(NotDone)
  }

  /** `ArticleParser.parse` as the source writes it: a loop over the lines that stops at
      the first failed assertion, then the finalisation checks. */
  method ParseDocument(content: string) returns (r: Result<(WikiArticle, set<string>), ParseError>)
    ensures r == ParseArticle(content)
  {
    var lines := SplitLines(content);
    var s := Start;
    var i := 0;
    while i < |lines|
      invariant 0 <= i <= |lines|
      invariant Inv(s)
      invariant Run(Start, lines) == Run(s, lines[i..])
    {
      assert lines[i..][1..] == lines[i + 1..];
      var step := ParseLine(s, lines[i]);
      if step.Failure? {
        return Failure(step.error);
      }
      s := step.value;
      i := i + 1;
    }
    var p := Finalize(s);
    if p.Failure? {
      return Failure(p.error);
    }
    var article := Article(p.value);
    var aliases := ArticleAliases(p.value);
    r := Success((article.value, aliases.value));
  }
}
