/** The line-level syntax of a wiki article: heading levels, the `<!-- ... -->`
    directive comment, the code-fence marker, and the test that decides whether a
    content line keeps a hard line break. */
module Markup {
  import opened Wrappers
  import opened Strings

  /** `line.search(/[^#]/)`: the index of the first character that is not `#`,
      or -1 when the line is made only of `#`. For a heading this is its level. */
  function HeadingLevel(line: string): (r: int)
    ensures -1 <= r < |line|
    ensures r == -1 <==> forall k :: 0 <= k < |line| ==> line[k] == '#'
    ensures r >= 0 ==> line[r] != '#' && forall k :: 0 <= k < r ==> line[k] == '#'
  {
    if |line| == 0 then -1
    else if line[0] != '#' then 0
    else
      var r := HeadingLevel(line[1..]);
      if r == -1 then -1 else r + 1
  }

  /** `level` copies of `#`. */
  function Hashes(level: nat): (r: string)
    ensures |r| == level
    ensures forall k :: 0 <= k < level ==> r[k] == '#'
  {
    seq(level, _ => '#')
  }

  /** The end of the run of `-` that starts at index `i`. */
  function DashRunEnd(t: string, i: nat): (e: nat)
    requires i <= |t|
    ensures i <= e <= |t|
    ensures forall m :: i <= m < e ==> t[m] == '-'
    ensures e < |t| ==> t[e] != '-'
    decreases |t| - i
  {
    if i < |t| && t[i] == '-' then DashRunEnd(t, i + 1) else i
  }

  /** The start of the run of `-` that ends just before index `j`, not reaching below `lo`. */
  function DashRunStart(t: string, lo: nat, j: nat): (b: nat)
    requires lo <= j <= |t|
    ensures lo <= b <= j
    ensures forall m :: b <= m < j ==> t[m] == '-'
    ensures b > lo ==> t[b - 1] != '-'
    decreases j
  {
    if j > lo && t[j - 1] == '-' then DashRunStart(t, lo, j - 1) else j
  }

  /** `t[i..j]` is a capture of `/^<!--+(.*?)-+->$/` in `t`: `<!-` and at least one more
      dash before it, at least two dashes and `>` after it, and no line terminator in it. */
  ghost predicate IsComment(t: string, i: int, j: int) {
    && 4 <= i <= j <= |t| - 3
    && t[0] == '<' && t[1] == '!' && t[2] == '-'
    && (forall m :: 3 <= m < i ==> t[m] == '-')
    && (forall m :: j <= m < |t| - 1 ==> t[m] == '-')
    && t[|t| - 1] == '>'
    && NoLineTerminator(t[i..j])
  }

  /** The capture the regex engine returns: the greedy `-+` after `<!-` and the lazy
      `(.*?)` leave a capture that neither starts nor ends with a dash. */
  ghost predicate IsLeftmostCapture(t: string, i: int, j: int) {
    IsComment(t, i, j) && (i < j ==> t[i] != '-' && t[j - 1] != '-')
  }

  /** Any capture lies between the run of dashes after `<!-` and the run before `>`. */
  lemma CommentEnclosesRuns(t: string, i: int, j: int)
    requires IsComment(t, i, j)
    ensures |t| >= 7 && t[..4] == "<!--" && t[|t| - 3..] == "-->"
    ensures var a, b := DashRunEnd(t, 3), DashRunStart(t, 3, |t| - 1);
            i <= a && b <= j && (a <= b ==> NoLineTerminator(t[a..b]))
  {
    CommentDelimiters(t, i, j);
    var a, b := DashRunEnd(t, 3), DashRunStart(t, 3, |t| - 1);
    assert i <= a && b <= j;
    if a <= b {
      InfixNoLineTerminator(t, i, j, a, b);
    }
  }

  lemma CommentDelimiters(t: string, i: int, j: int)
    requires IsComment(t, i, j)
    ensures |t| >= 7 && t[..4] == "<!--" && t[|t| - 3..] == "-->"
  {
    assert t[3] == '-' && t[|t| - 3] == '-' && t[|t| - 2] == '-';
  }

  /** A slice of a slice free of line terminators is free of them too. */
  lemma InfixNoLineTerminator(t: string, i: int, j: int, a: int, b: int)
    requires 0 <= i <= a <= b <= j <= |t| && NoLineTerminator(t[i..j])
    ensures NoLineTerminator(t[a..b])
  {
    forall k | 0 <= k < b - a ensures !IsLineTerminator(t[a..b][k]) {
      assert t[a..b][k] == t[i..j][k + a - i];
    }
  }

  lemma CommentShape(t: string)
    ensures forall i, j :: IsComment(t, i, j) ==>
      && |t| >= 7 && t[..4] == "<!--" && t[|t| - 3..] == "-->"
      && (DashRunEnd(t, 3) <= DashRunStart(t, 3, |t| - 1) ==>
            NoLineTerminator(t[DashRunEnd(t, 3)..DashRunStart(t, 3, |t| - 1)]))
  {
    forall i, j | IsComment(t, i, j)
      ensures && |t| >= 7 && t[..4] == "<!--" && t[|t| - 3..] == "-->"
              && (DashRunEnd(t, 3) <= DashRunStart(t, 3, |t| - 1) ==>
                    NoLineTerminator(t[DashRunEnd(t, 3)..DashRunStart(t, 3, |t| - 1)]))
    {
      CommentEnclosesRuns(t, i, j);
    }
  }

  /** The bounds of the capture of `/^<!--+(.*?)-+->$/` in `t`, or None when it does not match. */
  function CommentCapture(t: string): (r: Option<(nat, nat)>)
    ensures r.Some? ==> IsLeftmostCapture(t, r.value.0, r.value.1)
    ensures r.None? ==> forall i, j :: !IsComment(t, i, j)
  {
    CommentShape(t);
    if |t| < 7 || t[..4] != "<!--" || t[|t| - 3..] != "-->" then
      None
    else
      var a := DashRunEnd(t, 3);
      var b := DashRunStart(t, 3, |t| - 1);
      assert t[3] == t[..4][3] && t[|t| - 3] == t[|t| - 3..][0] && t[|t| - 2] == t[|t| - 3..][1];
      if a <= b then
        if NoLineTerminator(t[a..b]) then
          Some((a, b))
        else
          None
      else
        Some((4, 4))
  }

  /** A leftmost capture is the text strictly between the two runs of dashes, or empty
      when the runs meet. */
  lemma LeftmostCaptureIsBetweenRuns(t: string, i: int, j: int)
    requires IsLeftmostCapture(t, i, j)
    ensures var a, b := DashRunEnd(t, 3), DashRunStart(t, 3, |t| - 1);
            t[i..j] == if a <= b then t[a..b] else ""
  {
    var a, b := DashRunEnd(t, 3), DashRunStart(t, 3, |t| - 1);
    if i < j {
      assert a == i;
      assert b == j;
    } else {
      assert forall m :: 3 <= m < |t| - 1 ==> t[m] == '-';
      assert a == |t| - 1;
      assert b == 3;
    }
  }

  /** The regex has one answer: two leftmost captures of the same line are the same text. */
  lemma LeftmostCaptureUnique(t: string, i: int, j: int, i': int, j': int)
    requires IsLeftmostCapture(t, i, j) && IsLeftmostCapture(t, i', j')
    ensures t[i..j] == t[i'..j']
  {
    LeftmostCaptureIsBetweenRuns(t, i, j);
    LeftmostCaptureIsBetweenRuns(t, i', j');
  }

  /** `trimmed.match(/^<!--+(.*?)-+->$/)![1].trim()`: the directive's payload, or None
      where the source dereferences a failed match. */
  function DirectivePayload(t: string): (r: Option<string>)
    ensures r.Some? <==> exists i, j :: IsComment(t, i, j)
    ensures r.Some? ==> exists i, j :: IsLeftmostCapture(t, i, j) && r.value == Trim(t[i..j])
    ensures r.Some? ==> IsTrimmed(r.value)
  {
    match CommentCapture(t)
    case None => None
    case Some((i, j)) => Some(Trim(t[i..j]))
  }

  /** How `parse_line` treats a line, classified in the source's order. */
  datatype LineKind = FenceLine | HeadingLine | DirectiveLine | ContentLine

  /** A line whose trimmed form starts with three backticks toggles the code fence. */
  predicate IsFence(line: string) {
    StartsWith(Trim(line), "```")
  }

  /** Fence detection and directive detection use the trimmed line; heading detection
      uses the line as it is. Inside a code fence only the fence marker is recognised. */
  function Classify(inCode: bool, line: string): LineKind {
    var trimmed := Trim(line);
    if StartsWith(trimmed, "```") then FenceLine
    else if !inCode && StartsWith(line, "#") then HeadingLine
    else if !inCode && StartsWith(trimmed, "<!--") && EndsWith(trimmed, "-->") then DirectiveLine
    else ContentLine
  }

  /** Outside a fence, a line that starts with `#` is a heading. */
  lemma HeadingClassified(line: string)
    requires |line| > 0 && line[0] == '#'
    ensures Classify(false, line) == HeadingLine
  {
    TrimKeepsFirst(line);
    assert StartsWith(line, "#");
  }

  /** The minimal spelling of a heading: `level` marks, a space, the text. */
  function HeadingText(level: nat, text: string): string {
    Hashes(level) + " " + text
  }

  /** A heading in its minimal spelling is recognised as a heading of its level, and the
      text after the marks, trimmed, is the text it was written with. */
  lemma HeadingRoundTrip(level: nat, text: string)
    requires level >= 1 && IsTrimmed(text)
    ensures Classify(false, HeadingText(level, text)) == HeadingLine
    ensures HeadingLevel(HeadingText(level, text)) == level
    ensures Trim(HeadingText(level, text)[level..]) == text
  {
    var line := HeadingText(level, text);
    assert line[level] == ' ';
    assert forall k :: 0 <= k < level ==> line[k] == Hashes(level)[k];
    HeadingClassified(line);
    assert line[level..] == " " + text + "";
    TrimPadded(" ", text, "");
  }

  /** `/^\d+.*$/` as written: one or more digits, then characters that are not line terminators. */
  ghost predicate MatchesNumbered(t: string) {
    exists k :: 1 <= k <= |t| && (forall m :: 0 <= m < k ==> IsDigit(t[m])) && NoLineTerminator(t[k..])
  }

  /** The executable form of `/^\d+.*$/`: a leading digit and no line terminator anywhere. */
  predicate LooksNumbered(t: string) {
    |t| > 0 && IsDigit(t[0]) && NoLineTerminator(t)
  }

  lemma LooksNumberedMatches(t: string)
    ensures LooksNumbered(t) <==> MatchesNumbered(t)
  {
    if LooksNumbered(t) {
      assert NoLineTerminator(t[1..]) by {
        forall m | 0 <= m < |t| - 1 ensures !IsLineTerminator(t[1..][m]) {
          assert t[1..][m] == t[m + 1];
        }
      }
    }
    if MatchesNumbered(t) {
      var k :| 1 <= k <= |t| && (forall m :: 0 <= m < k ==> IsDigit(t[m])) && NoLineTerminator(t[k..]);
      forall m | 0 <= m < |t| ensures !IsLineTerminator(t[m]) {
        if m >= k {
          assert t[m] == t[k..][m - k];
        }
      }
    }
  }

  /** `requires_line_break` of `parse_regular_line`: the line keeps a hard break when the
      fence is open, it starts with `#`, it ends with two spaces, it is blank, or its trimmed
      form starts a bullet (`- `) or a numbered item. */
  predicate NeedsLineBreak(inCode: bool, line: string) {
    var trimmed := Trim(line);
    || inCode
    || StartsWith(line, "#")
    || EndsWith(line, "  ")
    || trimmed == ""
    || StartsWith(trimmed, "- ")
    || LooksNumbered(trimmed)
  }

  /** The line as it is appended: with `\n` when it keeps a hard break. */
  function Terminated(inCode: bool, line: string): string {
    if NeedsLineBreak(inCode, line) then line + "\n" else line
  }

  /** The minimal spelling of a directive: `<!-- payload -->`. */
  function DirectiveText(payload: string): string {
    "<!-- " + payload + " -->"
  }

  /** The regex applied to `<!-- payload -->` captures the payload with its two spaces. */
  lemma DirectiveTextCapture(payload: string)
    requires NoLineTerminator(payload)
    ensures var t := DirectiveText(payload);
            CommentCapture(t) == Some((4, |t| - 3)) && t[4..|t| - 3] == " " + payload + " "
  {
    var t := DirectiveText(payload);
    var n := |t|;
    assert t[..4] == "<!--";
    assert t[n - 3..] == "-->";
    assert t[3] == '-' && t[4] == ' ';
    assert DashRunEnd(t, 4) == 4;
    assert t[n - 2] == '-' && t[n - 3] == '-' && t[n - 4] == ' ';
    assert DashRunStart(t, 3, n - 3) == n - 3;
    assert DashRunStart(t, 3, n - 2) == n - 3;
    var c := t[4..n - 3];
    assert c == " " + payload + " ";
    assert NoLineTerminator(c) by {
      forall m | 0 <= m < |c| ensures !IsLineTerminator(c[m]) {
        if 0 < m < |c| - 1 {
          assert c[m] == payload[m - 1];
        }
      }
    }
  }

  /** Writing a directive and reading it back gives the payload: the line is classified as
      a directive and the regex captures the payload padded with one space on each side. */
  lemma DirectiveRoundTrip(payload: string)
    requires IsTrimmed(payload) && NoLineTerminator(payload)
    ensures Trim(DirectiveText(payload)) == DirectiveText(payload)
    ensures Classify(false, DirectiveText(payload)) == DirectiveLine
    ensures DirectivePayload(DirectiveText(payload)) == Some(payload)
  {
    var t := DirectiveText(payload);
    assert t[0] == '<' && t[|t| - 1] == '>';
    TrimOfTrimmed(t);
    assert t[..4] == "<!--" && t[|t| - 3..] == "-->";
    assert t[..3] != "```" && t[..1] != "#";
    DirectiveTextCapture(payload);
    TrimPadded(" ", payload, " ");
  }
}
