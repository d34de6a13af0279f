/** The string primitives the parser relies on, with ECMAScript semantics:
    `trim`, `startsWith`/`endsWith`, `split` on a single character and on `/\r?\n/`,
    and the inverse `join`. Characters are Unicode scalar values. */
module Strings {

  /** ECMAScript WhiteSpace and LineTerminator code points: what `String.prototype.trim` removes. */
  predicate IsWhitespace(c: char) {
    || c == '\t' || c == '\n' || c == '\U{000B}' || c == '\U{000C}' || c == '\r' || c == ' '
    || c == '\U{00A0}' || c == '\U{1680}' || ('\U{2000}' <= c <= '\U{200A}')
    || c == '\U{2028}' || c == '\U{2029}' || c == '\U{202F}' || c == '\U{205F}'
    || c == '\U{3000}' || c == '\U{FEFF}'
  }

  /** The characters a regular-expression `.` does not match. */
  predicate IsLineTerminator(c: char) {
    c == '\n' || c == '\r' || c == '\U{2028}' || c == '\U{2029}'
  }

  /** `\d`: an ASCII decimal digit. */
  predicate IsDigit(c: char) {
    '0' <= c <= '9'
  }

  predicate NoLineTerminator(s: string) {
    forall k :: 0 <= k < |s| ==> !IsLineTerminator(s[k])
  }

  predicate AllWhitespace(s: string) {
    forall k :: 0 <= k < |s| ==> IsWhitespace(s[k])
  }

  predicate StartsWith(s: string, prefix: string) {
    |prefix| <= |s| && s[..|prefix|] == prefix
  }

  predicate EndsWith(s: string, suffix: string) {
    |suffix| <= |s| && s[|s| - |suffix|..] == suffix
  }

  /** No whitespace at either end: the shape of everything `trim` returns. */
  predicate IsTrimmed(s: string) {
    |s| == 0 || (!IsWhitespace(s[0]) && !IsWhitespace(s[|s| - 1]))
  }

  /** The number of whitespace characters `s` begins with. */
  function LeadingWhitespace(s: string): (n: nat)
    ensures n <= |s|
    ensures forall k :: 0 <= k < n ==> IsWhitespace(s[k])
    ensures n < |s| ==> !IsWhitespace(s[n])
    ensures n == |s| <==> AllWhitespace(s)
  {
    if |s| > 0 && IsWhitespace(s[0]) then 1 + LeadingWhitespace(s[1..]) else 0
  }

  /** The number of whitespace characters `s` ends with. */
  function TrailingWhitespace(s: string): (n: nat)
    ensures n <= |s|
    ensures forall k :: |s| - n <= k < |s| ==> IsWhitespace(s[k])
    ensures n < |s| ==> !IsWhitespace(s[|s| - n - 1])
    ensures n == |s| <==> AllWhitespace(s)
  {
    if |s| > 0 && IsWhitespace(s[|s| - 1]) then 1 + TrailingWhitespace(s[..|s| - 1]) else 0
  }

  /** `trimStart`. */
  function TrimStart(s: string): string {
    s[LeadingWhitespace(s)..]
  }

  /** `trimEnd`. */
  function TrimEnd(s: string): string {
    s[..|s| - TrailingWhitespace(s)]
  }

  /** `String.prototype.trim`: both ends stripped of whitespace. */
  function Trim(s: string): (r: string)
    ensures IsTrimmed(r)
    ensures |r| <= |s|
    ensures r == "" <==> AllWhitespace(s)
  {
    var t := TrimStart(s);
    var r := TrimEnd(t);
    assert |r| > 0 ==> r[0] == t[0];
    r
  }

  /** `Trim` keeps exactly the middle of `s`: it drops a whitespace-only prefix and suffix. */
  lemma TrimIsInfix(s: string)
    ensures var a := LeadingWhitespace(s);
            && a + |Trim(s)| <= |s|
            && Trim(s) == s[a..a + |Trim(s)|]
            && AllWhitespace(s[..a])
            && AllWhitespace(s[a + |Trim(s)|..])
  {
    var a := LeadingWhitespace(s);
    var t := TrimStart(s);
    var r := Trim(s);
    assert r == t[..|r|];
    assert r == s[a..a + |r|];
    WhitespaceHead(s);
    WhitespaceTail(t);
    assert s[a + |r|..] == t[|r|..];
  }

  lemma WhitespaceHead(s: string)
    ensures AllWhitespace(s[..LeadingWhitespace(s)])
  {
    var a := LeadingWhitespace(s);
    forall k | 0 <= k < a ensures IsWhitespace(s[..a][k]) {
      assert s[..a][k] == s[k];
    }
  }

  lemma WhitespaceTail(t: string)
    ensures AllWhitespace(t[|TrimEnd(t)|..])
  {
    var tail := t[|TrimEnd(t)|..];
    forall k | 0 <= k < |tail| ensures IsWhitespace(tail[k]) {
      assert tail[k] == t[|TrimEnd(t)| + k];
    }
  }

  /** A string that starts with a non-blank character keeps that character first. */
  lemma TrimKeepsFirst(s: string)
    requires |s| > 0 && !IsWhitespace(s[0])
    ensures |Trim(s)| > 0 && Trim(s)[0] == s[0]
  {
    TrimIsInfix(s);
  }

  lemma {:induction false} TrimStartPadded(pre: string, x: string)
    requires AllWhitespace(pre)
    requires |x| == 0 || !IsWhitespace(x[0])
    ensures TrimStart(pre + x) == x
    decreases |pre|
  {
    if |pre| > 0 {
      assert (pre + x)[1..] == pre[1..] + x;
      TrimStartPadded(pre[1..], x);
    } else {
      assert pre + x == x;
    }
  }

  lemma {:induction false} TrimEndPadded(x: string, post: string)
    requires AllWhitespace(post)
    requires |x| == 0 || !IsWhitespace(x[|x| - 1])
    ensures TrimEnd(x + post) == x
    decreases |post|
  {
    if |post| > 0 {
      var s := x + post;
      assert s[|s| - 1] == post[|post| - 1];
      assert s[..|s| - 1] == x + post[..|post| - 1];
      TrimEndPadded(x, post[..|post| - 1]);
    } else {
      assert x + post == x;
    }
  }

  /** `trim` is characterised by its output: padding a trimmed string with whitespace on
      either side and trimming gives the string back. */
  lemma TrimPadded(pre: string, m: string, post: string)
    requires AllWhitespace(pre) && AllWhitespace(post)
    requires IsTrimmed(m)
    ensures Trim(pre + m + post) == m
  {
    if |m| == 0 {
      assert AllWhitespace(pre + m + post) by {
        forall k | 0 <= k < |pre + m + post|
          ensures IsWhitespace((pre + m + post)[k])
        {
          if k >= |pre| {
            assert (pre + m + post)[k] == post[k - |pre|];
          }
        }
      }
    } else {
      assert pre + m + post == pre + (m + post);
      TrimStartPadded(pre, m + post);
      TrimEndPadded(m, post);
    }
  }

  lemma TrimOfTrimmed(s: string)
    requires IsTrimmed(s)
    ensures Trim(s) == s
  {
    TrimPadded("", s, "");
    assert "" + s + "" == s;
  }

  lemma TrimIdempotent(s: string)
    ensures Trim(Trim(s)) == Trim(s)
  {
    TrimOfTrimmed(Trim(s));
  }

  /** `join(sep)`, the inverse of `split`. */
  function Join(parts: seq<string>, sep: string): string
  {
    if |parts| == 0 then ""
    else if |parts| == 1 then parts[0]
    else parts[0] + sep + Join(parts[1..], sep)
  }

  lemma JoinPrepend(x: string, parts: seq<string>, sep: string)
    requires |parts| >= 1
    ensures Join([x + parts[0]] + parts[1..], sep) == x + Join(parts, sep)
  {
    var ps := [x + parts[0]] + parts[1..];
    if |parts| > 1 {
      assert ps[1..] == parts[1..];
    }
  }

  lemma NoLineTerminatorConcat(a: string, b: string)
    ensures NoLineTerminator(a + b) <==> NoLineTerminator(a) && NoLineTerminator(b)
  {
    if NoLineTerminator(a) && NoLineTerminator(b) {
      forall k | 0 <= k < |a + b| ensures !IsLineTerminator((a + b)[k]) {
        if k >= |a| {
          assert (a + b)[k] == b[k - |a|];
        }
      }
    }
    if NoLineTerminator(a + b) {
      forall k | 0 <= k < |a| ensures !IsLineTerminator(a[k]) {
        assert (a + b)[k] == a[k];
      }
      forall k | 0 <= k < |b| ensures !IsLineTerminator(b[k]) {
        assert (a + b)[|a| + k] == b[k];
      }
    }
  }

  /** A string without line terminators is one line for `split(/\r?\n/)`: it holds no
      line feed and does not end in a carriage return. */
  lemma SingleLine(s: string)
    requires NoLineTerminator(s)
    ensures '\n' !in s && !EndsWith(s, "\r")
  {
    if |s| > 0 {
      assert s[|s| - 1..] == [s[|s| - 1]];
    }
  }

  /** The last part of a join is its suffix. */
  lemma {:induction false} JoinEndsWithLast(parts: seq<string>, sep: string)
    requires |parts| >= 1
    ensures EndsWith(Join(parts, sep), parts[|parts| - 1])
    decreases |parts|
  {
    if |parts| > 1 {
      JoinEndsWithLast(parts[1..], sep);
      var rest := Join(parts[1..], sep);
      var last := parts[|parts| - 1];
      assert (parts[0] + sep + rest)[|parts[0] + sep + rest| - |last|..] == rest[|rest| - |last|..];
    }
  }

  lemma {:induction false} JoinNoLineTerminator(parts: seq<string>, sep: string)
    requires NoLineTerminator(sep)
    requires forall k :: 0 <= k < |parts| ==> NoLineTerminator(parts[k])
    ensures NoLineTerminator(Join(parts, sep))
    decreases |parts|
  {
    if |parts| > 1 {
      JoinNoLineTerminator(parts[1..], sep);
      NoLineTerminatorConcat(parts[0], sep);
      NoLineTerminatorConcat(parts[0] + sep, Join(parts[1..], sep));
    }
  }

  /** `s.split(sep)` for a one-character separator. */
  function Split(s: string, sep: char): (r: seq<string>)
    ensures |r| >= 1
    ensures forall k :: 0 <= k < |r| ==> sep !in r[k]
    ensures Join(r, [sep]) == s
  {
    if |s| == 0 then [""]
    else
      var rest := Split(s[1..], sep);
      assert s == [s[0]] + s[1..];
      if s[0] == sep then
        assert ([""] + rest)[1..] == rest;
        [""] + rest
      else
        JoinPrepend([s[0]], rest, [sep]);
        [[s[0]] + rest[0]] + rest[1..]
  }

  /** One part more than there are separators. */
  lemma {:induction false} SplitCount(s: string, sep: char)
    ensures |Split(s, sep)| == multiset(s)[sep] + 1
    decreases |s|
  {
    if |s| > 0 {
      SplitCount(s[1..], sep);
      if s[0] == sep {
        SplitSeparator(s, sep);
      } else {
        SplitOther(s, sep);
      }
      CountCons(s, sep);
    }
  }

  lemma {:induction false} SplitWithoutSeparator(x: string, sep: char)
    requires sep !in x
    ensures Split(x, sep) == [x]
    decreases |x|
  {
    if |x| > 0 {
      SplitWithoutSeparator(x[1..], sep);
      assert [x[0]] + x[1..] == x;
    }
  }

  lemma {:induction false} SplitAtFirstSeparator(x: string, y: string, sep: char)
    requires sep !in x
    ensures Split(x + [sep] + y, sep) == [x] + Split(y, sep)
    decreases |x|
  {
    var s := x + [sep] + y;
    if |x| == 0 {
      assert s[1..] == y;
    } else {
      assert s[1..] == x[1..] + [sep] + y;
      SplitAtFirstSeparator(x[1..], y, sep);
      SplitOther(s, sep);
      assert [x[0]] + x[1..] == x;
    }
  }

  /** The occurrences of `c` in a non-empty string: the first character's and the rest's. */
  lemma CountCons(s: string, c: char)
    requires |s| > 0
    ensures multiset(s)[c] == (if s[0] == c then 1 else 0) + multiset(s[1..])[c]
  {
    assert s == [s[0]] + s[1..];
    assert multiset(s) == multiset([s[0]]) + multiset(s[1..]);
  }

  /** A first character that is the separator ends an empty first part. */
  lemma SplitSeparator(s: string, sep: char)
    requires |s| > 0 && s[0] == sep
    ensures Split(s, sep) == [""] + Split(s[1..], sep)
  {
  }

  /** A first character other than the separator joins the first part. */
  lemma SplitOther(s: string, sep: char)
    requires |s| > 0 && s[0] != sep
    ensures Split(s, sep) == [[s[0]] + Split(s[1..], sep)[0]] + Split(s[1..], sep)[1..]
  {
  }

  /** Splitting a join gives the parts back when no part contains the separator. */
  lemma {:induction false} SplitJoin(parts: seq<string>, sep: char)
    requires |parts| >= 1
    requires forall k :: 0 <= k < |parts| ==> sep !in parts[k]
    ensures Split(Join(parts, [sep]), sep) == parts
    decreases |parts|
  {
    if |parts| == 1 {
      SplitWithoutSeparator(parts[0], sep);
    } else {
      SplitJoin(parts[1..], sep);
      SplitAtFirstSeparator(parts[0], Join(parts[1..], [sep]), sep);
      assert [parts[0]] + parts[1..] == parts;
    }
  }

  /** Drops one carriage return at the end of a line. */
  function DropCarriageReturn(s: string): (r: string)
    ensures EndsWith(s, "\r") ==> r + "\r" == s
    ensures !EndsWith(s, "\r") ==> r == s
  {
    if EndsWith(s, "\r") then s[..|s| - 1] else s
  }

  /** `content.split(/\r?\n/)`: a break at every line feed, where a carriage return
      right before the line feed belongs to the break. */
  function SplitLines(s: string): (r: seq<string>)
    ensures |r| >= 1
    ensures forall k :: 0 <= k < |r| ==> '\n' !in r[k]
  {
    var parts := Split(s, '\n');
    seq(|parts|, k requires 0 <= k < |parts| =>
      if k < |parts| - 1 then DropCarriageReturn(parts[k]) else parts[k])
  }

  /** The parts between line feeds, each but the last without its carriage return. */
  function DropReturns(parts: seq<string>): (r: seq<string>)
    ensures |r| == |parts|
  {
    seq(|parts|, k requires 0 <= k < |parts| =>
      if k < |parts| - 1 then DropCarriageReturn(parts[k]) else parts[k])
  }

  /** For each line feed between the parts, whether a carriage return came before it. */
  function ReturnFlags(parts: seq<string>): (r: seq<bool>)
    requires |parts| >= 1
    ensures |r| == |parts| - 1
  {
    seq(|parts| - 1, k requires 0 <= k < |parts| - 1 => EndsWith(parts[k], "\r"))
  }

  /** The line ending of each break in `s`: `true` for `\r\n`, `false` for `\n`. */
  function LineEndings(s: string): (r: seq<bool>)
    ensures |r| == |SplitLines(s)| - 1
  {
    ReturnFlags(Split(s, '\n'))
  }

  /** Lines put back together, each break written `\r\n` or `\n` as `crlf` says. */
  function Rejoin(lines: seq<string>, crlf: seq<bool>): string
    requires |lines| == |crlf| + 1
    decreases |crlf|
  {
    if |crlf| == 0 then lines[0]
    else lines[0] + (if crlf[0] then "\r\n" else "\n") + Rejoin(lines[1..], crlf[1..])
  }

  /** A part and the line feed after it, rebuilt from the line and its ending. */
  lemma BreakRestored(p: string)
    ensures DropCarriageReturn(p) + (if EndsWith(p, "\r") then "\r\n" else "\n") == p + "\n"
  {
    if EndsWith(p, "\r") {
      assert DropCarriageReturn(p) + "\r" == p;
    }
  }

  lemma {:induction false} RejoinParts(parts: seq<string>)
    requires |parts| >= 1
    ensures Rejoin(DropReturns(parts), ReturnFlags(parts)) == Join(parts, "\n")
    decreases |parts|
  {
    if |parts| > 1 {
      RejoinParts(parts[1..]);
      var lines, flags := DropReturns(parts), ReturnFlags(parts);
      assert lines[1..] == DropReturns(parts[1..]);
      assert flags[1..] == ReturnFlags(parts[1..]);
      BreakRestored(parts[0]);
    }
  }

  /** Nothing is lost by splitting, whatever mix of `\n` and `\r\n` the text uses:
      putting each dropped carriage return back rebuilds the text. */
  lemma SplitLinesRejoin(s: string)
    ensures Rejoin(SplitLines(s), LineEndings(s)) == s
  {
    var parts := Split(s, '\n');
    assert SplitLines(s) == DropReturns(parts);
    RejoinParts(parts);
  }

  /** Each line but the last with a carriage return added where `crlf` says so. */
  function Returned(lines: seq<string>, crlf: seq<bool>): (r: seq<string>)
    requires |lines| == |crlf| + 1
    ensures |r| == |lines|
  {
    seq(|lines|, k requires 0 <= k < |lines| =>
      if k < |crlf| && crlf[k] then lines[k] + "\r" else lines[k])
  }

  lemma {:induction false} RejoinReturned(lines: seq<string>, crlf: seq<bool>)
    requires |lines| == |crlf| + 1
    ensures Rejoin(lines, crlf) == Join(Returned(lines, crlf), "\n")
    decreases |crlf|
  {
    if |crlf| > 0 {
      RejoinReturned(lines[1..], crlf[1..]);
      var w := Returned(lines, crlf);
      assert w[1..] == Returned(lines[1..], crlf[1..]);
      assert lines[0] + (if crlf[0] then "\r\n" else "\n") == w[0] + "\n";
    }
  }

  /** Splitting undoes `Rejoin`: the lines and the ending of every break come back, as
      long as no line holds a line feed and no line before a plain `\n` ends in a
      carriage return (that return would be read as part of the break). */
  lemma RejoinSplitLines(lines: seq<string>, crlf: seq<bool>)
    requires |lines| == |crlf| + 1
    requires forall k :: 0 <= k < |lines| ==> '\n' !in lines[k]
    requires forall k :: 0 <= k < |crlf| ==> !crlf[k] ==> !EndsWith(lines[k], "\r")
    ensures SplitLines(Rejoin(lines, crlf)) == lines
    ensures LineEndings(Rejoin(lines, crlf)) == crlf
  {
    var w := Returned(lines, crlf);
    RejoinReturned(lines, crlf);
    forall k | 0 <= k < |w|
      ensures '\n' !in w[k]
      ensures k < |crlf| ==> DropCarriageReturn(w[k]) == lines[k] && EndsWith(w[k], "\r") == crlf[k]
    {
      if k < |crlf| && crlf[k] {
        assert w[k] == lines[k] + "\r";
        assert (lines[k] + "\r")[..|lines[k]|] == lines[k];
      }
    }
    SplitJoin(w, '\n');
    assert DropReturns(w) == lines;
    assert ReturnFlags(w) == crlf;
  }

  /** Lines joined with `\n` split back into the same lines, as long as no line holds a
      line feed and no line but the last ends in a carriage return. */
  lemma SplitLinesJoin(lines: seq<string>)
    requires |lines| >= 1
    requires forall k :: 0 <= k < |lines| ==> '\n' !in lines[k]
    requires forall k :: 0 <= k < |lines| - 1 ==> !EndsWith(lines[k], "\r")
    ensures SplitLines(Join(lines, "\n")) == lines
  {
    SplitJoin(lines, '\n');
  }

  /** Appends a carriage return to every line but the last. */
  function WithCarriageReturns(lines: seq<string>): (r: seq<string>)
    ensures |r| == |lines|
  {
    seq(|lines|, k requires 0 <= k < |lines| => if k < |lines| - 1 then lines[k] + "\r" else lines[k])
  }

  lemma {:induction false} JoinCrLf(lines: seq<string>)
    requires |lines| >= 1
    ensures Join(lines, "\r\n") == Join(WithCarriageReturns(lines), "\n")
    decreases |lines|
  {
    if |lines| > 1 {
      JoinCrLf(lines[1..]);
      var w := WithCarriageReturns(lines);
      assert w[1..] == WithCarriageReturns(lines[1..]);
      assert lines[0] + "\r\n" + Join(lines[1..], "\r\n") == w[0] + "\n" + Join(w[1..], "\n");
    }
  }

  /** Windows line endings: lines joined with `\r\n` split back into the same lines, for
      any lines free of line feeds (a line may itself end in a carriage return). */
  lemma SplitLinesJoinCrLf(lines: seq<string>)
    requires |lines| >= 1
    requires forall k :: 0 <= k < |lines| ==> '\n' !in lines[k]
    ensures SplitLines(Join(lines, "\r\n")) == lines
  {
    JoinCrLf(lines);
    var w := WithCarriageReturns(lines);
    CarriageReturnLines(lines);
    SplitJoin(w, '\n');
    var text := Join(lines, "\r\n");
    assert Split(text, '\n') == w;
    var r := SplitLines(text);
    assert |r| == |lines|;
    forall k | 0 <= k < |lines| ensures r[k] == lines[k] {
      if k < |lines| - 1 {
        assert r[k] == DropCarriageReturn(w[k]);
      }
    }
  }

  /** Every line but the last gains a carriage return that dropping takes away again,
      and no line gains a line feed. */
  lemma CarriageReturnLines(lines: seq<string>)
    requires |lines| >= 1
    requires forall k :: 0 <= k < |lines| ==> '\n' !in lines[k]
    ensures var w := WithCarriageReturns(lines);
      && (forall k :: 0 <= k < |w| ==> '\n' !in w[k])
      && (forall k :: 0 <= k < |w| - 1 ==> DropCarriageReturn(w[k]) == lines[k])
      && w[|w| - 1] == lines[|lines| - 1]
  {
    var w := WithCarriageReturns(lines);
    forall k | 0 <= k < |w| - 1
      ensures '\n' !in w[k] && DropCarriageReturn(w[k]) == lines[k]
    {
      assert w[k] == lines[k] + "\r";
      assert EndsWith(w[k], "\r");
      assert (lines[k] + "\r")[..|lines[k]|] == lines[k];
    }
  }
}
