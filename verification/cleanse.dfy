/** The mirror tool that strips a sensitive source file: every line of the file is
    replaced by an empty comment, and the first lines are overlaid with a fixed notice.
    Reading and writing the file are left to the caller: the model takes the number of
    lines the file had and produces the text written back. */
module Cleanse {
  import opened Strings

  function Max(x: nat, y: nat): nat {
    if x >= y then x else y
  }

  function Min(x: nat, y: nat): nat {
    if x <= y then x else y
  }

  /** `emplace_over(a, b)`: `a` written over the start of `b`. A Python slice that
      starts past the end is empty, hence the `Min`. */
  function EmplaceOver<T>(a: seq<T>, b: seq<T>): (r: seq<T>)
    ensures |r| == Max(|a|, |b|)
    ensures r[..|a|] == a
    ensures forall i :: |a| <= i < |r| ==> r[i] == b[i]
    ensures |b| <= |a| ==> r == a
  {
    a + b[Min(|a|, |b|)..]
  }

  /** The overlay defined element by element, independently of slicing. */
  function Overlay<T>(a: seq<T>, b: seq<T>): (r: seq<T>)
    ensures |r| == Max(|a|, |b|)
  {
    seq(Max(|a|, |b|), i requires 0 <= i < Max(|a|, |b|) => if i < |a| then a[i] else b[i])
  }

  /** Both definitions agree: position `i` comes from `a` where `a` reaches, else from `b`. */
  lemma EmplaceOverIsOverlay<T>(a: seq<T>, b: seq<T>)
    ensures EmplaceOver(a, b) == Overlay(a, b)
  {
    var r := EmplaceOver(a, b);
    var o := Overlay(a, b);
    forall i | 0 <= i < |r| ensures r[i] == o[i] {
      if i < |a| {
        assert r[i] == r[..|a|][i];
      }
    }
  }

  /** The empty sequence changes nothing, on either side. */
  lemma EmplaceOverEmpty<T>(s: seq<T>)
    ensures EmplaceOver([], s) == s
    ensures EmplaceOver(s, []) == s
  {
    assert s[0..] == s;
  }

  /** Overlaying the same prefix twice is overlaying it once. */
  lemma EmplaceOverIdempotent<T>(a: seq<T>, b: seq<T>)
    ensures EmplaceOver(a, EmplaceOver(a, b)) == EmplaceOver(a, b)
  {
    var r := EmplaceOver(a, b);
    var rr := EmplaceOver(a, r);
    assert |rr| == |r|;
    forall i | 0 <= i < |r| ensures rr[i] == r[i] {
      if i < |a| {
        assert rr[i] == rr[..|a|][i] && r[i] == r[..|a|][i];
      }
    }
  }

  /** Overlays compose: laying `a` over `b` and the result over `c` is laying `a` over
      (`b` laid over `c`). */
  lemma EmplaceOverAssociative<T>(a: seq<T>, b: seq<T>, c: seq<T>)
    ensures EmplaceOver(EmplaceOver(a, b), c) == EmplaceOver(a, EmplaceOver(b, c))
  {
    EmplaceOverIsOverlay(a, b);
    EmplaceOverIsOverlay(b, c);
    EmplaceOverIsOverlay(EmplaceOver(a, b), c);
    EmplaceOverIsOverlay(a, EmplaceOver(b, c));
  }

  /** The notice: seven comment lines of 53 characters followed by an empty line. Each
      line is written as a concatenation of short pieces; the text is the same. */
  const RedactedMessage: seq<string> := [
    "/************" + "*************" + "*************" + "*************" + "*",
    " * This file'" + "s contents ha" + "ve been strip" + "ped from the " + "*",
    " * public mir" + "ror due to it" + "s sensitive n" + "ature. In    " + "*",
    " * this repos" + "itory files a" + "re considered" + " sensitive   " + "*",
    " * if they co" + "ntain logic r" + "elated to det" + "ection and   " + "*",
    " * handling o" + "f scammers, s" + "pammers, and " + "bots.        " + "*",
    " ************" + "*************" + "*************" + "*************" + "/",
    ""]

  /** One empty comment per line the file had. */
  function Placeholders(n: nat): (r: seq<string>)
    ensures |r| == n && forall i :: 0 <= i < n ==> r[i] == "/**/"
  {
    seq(n, _ => "/**/")
  }

  /** The lines of a cleansed file that had `n` lines. */
  function CleansedLines(n: nat): (r: seq<string>)
    ensures |r| == Max(|RedactedMessage|, n)
    ensures r[..|RedactedMessage|] == RedactedMessage
    ensures forall i :: |RedactedMessage| <= i < |r| ==> r[i] == "/**/"
  {
    EmplaceOver(RedactedMessage, Placeholders(n))
  }

  /** The text written back: the lines joined with line feeds, plus a final line feed. */
  function CleansedText(n: nat): string {
    Join(CleansedLines(n), "\n") + "\n"
  }

  /** The number of lines Python's line iteration yields for a text whose only line
      break is the line feed: every line feed ends a line, and text after the last
      one is a line of its own. */
  function LineCount(text: string): nat {
    var parts := Split(text, '\n');
    if parts[|parts| - 1] == "" then |parts| - 1 else |parts|
  }

  /** No line of the notice holds a line feed, so joining and splitting it again is exact. */
  lemma NoLineFeedInMessage()
    ensures forall i :: 0 <= i < |RedactedMessage| ==> '\n' !in RedactedMessage[i]
  {
    NoLineFeedInLine0(); NoLineFeedInLine1(); NoLineFeedInLine2(); NoLineFeedInLine3();
    NoLineFeedInLine4(); NoLineFeedInLine5(); NoLineFeedInLine6();
  }

  lemma NoLineFeedInLine0() ensures '\n' !in RedactedMessage[0] { }
  lemma NoLineFeedInLine1() ensures '\n' !in RedactedMessage[1] { }
  lemma NoLineFeedInLine2() ensures '\n' !in RedactedMessage[2] { }
  lemma NoLineFeedInLine3() ensures '\n' !in RedactedMessage[3] { }
  lemma NoLineFeedInLine4() ensures '\n' !in RedactedMessage[4] { }
  lemma NoLineFeedInLine5() ensures '\n' !in RedactedMessage[5] { }
  lemma NoLineFeedInLine6() ensures '\n' !in RedactedMessage[6] { }

  /** The cleansed text splits back into its lines and one empty remainder. */
  lemma CleansedTextSplits(n: nat)
    ensures Split(CleansedText(n), '\n') == CleansedLines(n) + [""]
  {
    var lines := CleansedLines(n);
    var ext := lines + [""];
    NoLineFeedInMessage();
    forall i | 0 <= i < |ext| ensures '\n' !in ext[i] {
      if i < |RedactedMessage| {
        assert ext[i] == RedactedMessage[i] by {
          assert lines[..|RedactedMessage|][i] == lines[i];
        }
      }
    }
    JoinAppendEmpty(lines, "\n");
    SplitJoin(ext, '\n');
  }

  /** Joining with one more empty part appends one more separator. */
  lemma {:induction false} JoinAppendEmpty(parts: seq<string>, sep: string)
    requires |parts| >= 1
    ensures Join(parts + [""], sep) == Join(parts, sep) + sep
    decreases |parts|
  {
    if |parts| == 1 {
      assert (parts + [""])[1..] == [""];
    } else {
      assert (parts + [""])[1..] == parts[1..] + [""];
      JoinAppendEmpty(parts[1..], sep);
    }
  }

  /** A cleansed file has as many lines as the notice or the original, whichever is more. */
  lemma CleansedLineCount(n: nat)
    ensures LineCount(CleansedText(n)) == Max(|RedactedMessage|, n)
  {
    CleansedTextSplits(n);
  }

  /** Cleansing is idempotent: cleansing a cleansed file writes the same text again. */
  lemma CleanseIdempotent(n: nat)
    ensures CleansedText(LineCount(CleansedText(n))) == CleansedText(n)
  {
    CleansedLineCount(n);
    var m := Max(|RedactedMessage|, n);
    assert CleansedLines(m) == CleansedLines(n) by {
      var a := CleansedLines(m);
      var b := CleansedLines(n);
      forall i | 0 <= i < |a| ensures a[i] == b[i] {
        if i < |RedactedMessage| {
          assert a[i] == a[..|RedactedMessage|][i] && b[i] == b[..|RedactedMessage|][i];
        }
      }
    }
  }

  /** The module names `main` cleanses, as the list is written: the comma after
      `"message_purge.ts"` is missing, so Python joins it with `"pasta.ts"` into one name. */
  const FilesAsWritten: seq<string> := [
    "anti_raid.ts", "anti_scambot.ts", "config.ts", "hic_sunt_dracones.ts",
    "link_blacklist.ts", "message_purge.ts" + "pasta.ts", "raidpurge.ts", "test_module.ts"]

  /** The list as evidently intended: one entry per sensitive module. */
  const Files: seq<string> := [
    "anti_raid.ts", "anti_scambot.ts", "config.ts", "hic_sunt_dracones.ts",
    "link_blacklist.ts", "message_purge.ts", "pasta.ts", "raidpurge.ts", "test_module.ts"]

  /** As written, neither `message_purge.ts` nor `pasta.ts` is cleansed: the list names
      eight files, one of them the merged name, and no entry names either module. */
  lemma MissingComma()
    ensures |FilesAsWritten| == 8
    ensures "message_purge.ts" !in FilesAsWritten && "pasta.ts" !in FilesAsWritten
  {
    forall k | 0 <= k < |FilesAsWritten|
      ensures FilesAsWritten[k] != "message_purge.ts" && FilesAsWritten[k] != "pasta.ts"
    {
      assert k == 5 ==> |FilesAsWritten[k]| == 24;
    }
  }

  /** The intended list names all nine modules, each once, both of those among them. */
  lemma AllFilesListed()
    ensures |Files| == 9
    ensures "message_purge.ts" in Files && "pasta.ts" in Files
    ensures forall i, j :: 0 <= i < j < |Files| ==> Files[i] != Files[j]
  {
    assert Files[5] == "message_purge.ts" && Files[6] == "pasta.ts";
  }
}
