/** The code extractor applied to generated text before it is stored (projectController.js,
    lines 96-98, repeated at 114-116): two global regular-expression replacements and a trim,
    written out by hand.

    The first replacement scans left to right and removes every triple backtick together
    with the longest run of ASCII letters after it (the class `a-z` under the
    case-insensitive flag) and at most one line feed after those. The second removes a
    triple backtick that ends the string. The trim is `JsText.Trim`. */
module Fences {
  import opened JsText

  /** A triple backtick starts at index `i` of `s`. */
  predicate FenceAt(s: string, i: int)
    requires 0 <= i && i + 3 <= |s|
  {
    s[i] == '`' && s[i + 1] == '`' && s[i + 2] == '`'
  }

  /** `s` contains no triple backtick. */
  predicate NoFence(s: string) {
    forall i :: 0 <= i && i + 3 <= |s| ==> !FenceAt(s, i)
  }

  predicate IsAsciiLetter(c: char) {
    'a' <= c <= 'z' || 'A' <= c <= 'Z'
  }

  predicate AllAsciiLetters(s: string) {
    forall i :: 0 <= i < |s| ==> IsAsciiLetter(s[i])
  }

  /** Drops the longest run of ASCII letters at the front (the language tag of a fence). */
  function SkipLetters(s: string): (r: string)
    ensures |r| <= |s| && r == s[|s| - |r|..]
    ensures AllAsciiLetters(s[..|s| - |r|])
    ensures r == [] || !IsAsciiLetter(r[0])
  {
    if s != [] && IsAsciiLetter(s[0]) then
      var r := SkipLetters(s[1..]);
      assert forall i :: 0 < i < |s| - |r| ==> s[i] == s[1..][..|s[1..]| - |r|][i - 1];
      r
    else s
  }

  /** Drops one line feed at the front, if there is one. */
  function SkipLineFeed(s: string): (r: string)
    ensures |r| <= |s| && r == s[|s| - |r|..]
    ensures |s| - |r| <= 1 && (|r| < |s| <==> s != [] && s[0] == '\n')
  {
    if s != [] && s[0] == '\n' then s[1..] else s
  }

  /** The first replacement: every opening fence, with its tag and one line feed, removed. */
  function StripOpeningFences(s: string): (r: string)
    decreases |s|
  {
    if |s| < 3 then s
    else if FenceAt(s, 0) then StripOpeningFences(SkipLineFeed(SkipLetters(s[3..])))
    else [s[0]] + StripOpeningFences(s[1..])
  }

  /** The second replacement: a triple backtick at the very end removed (the anchor only
      matches at the end of the input, so there is at most one match). */
  function StripClosingFence(s: string): (r: string)
  {
    if |s| >= 3 && FenceAt(s, |s| - 3) then s[..|s| - 3] else s
  }

  /** The whole extractor: the code that is stored in a new version and in the project. */
  function StripFences(code: string): (r: string)
  {
    Trim(StripClosingFence(StripOpeningFences(code)))
  }

  /** The first replacement as one left-to-right pass, the form the handlers apply: `out`
      is what has been produced so far and `rest` what is still to be scanned.
      `ScanOpeningIsStripOpening` shows that it computes `StripOpeningFences`. */
  function ScanOpening(rest: string, out: string): string
    decreases |rest|
  {
    if |rest| < 3 then out + rest
    else if FenceAt(rest, 0) then ScanOpening(SkipLineFeed(SkipLetters(rest[3..])), out)
    else ScanOpening(rest[1..], out + [rest[0]])
  }

  /** The code extracted from generated text, with the first replacement done in one pass. */
  function ExtractCode(generated: string): string {
    Trim(StripClosingFence(ScanOpening(generated, [])))
  }

  /** Text wrapped in a fence: an opening fence with language tag `tag` on its own line,
      then `body`, then a closing fence. */
  function Fenced(tag: string, body: string): string {
    "```" + tag + "\n" + body + "```"
  }

  // ----- Lemmas about the first replacement -----

  /** Where the scan does not start a match, the first character (and, after a lone
      backtick, the second) is kept. */
  lemma StripOpeningKeepsHead(s: string)
    ensures |s| > 0 && s[0] != '`' ==>
      var r := StripOpeningFences(s); |r| > 0 && r[0] == s[0]
    ensures |s| >= 2 && s[0] == '`' && s[1] != '`' ==>
      var r := StripOpeningFences(s); |r| >= 2 && r[0] == '`' && r[1] == s[1]
  {
    if |s| >= 3 && s[0] == '`' && s[1] != '`' {
      assert !FenceAt(s, 0);
      var t := s[1..];
      assert StripOpeningFences(s) == [s[0]] + StripOpeningFences(t);
      if |t| >= 3 {
        assert !FenceAt(t, 0);
        assert StripOpeningFences(t) == [t[0]] + StripOpeningFences(t[1..]);
      }
    }
  }

  /** After the first replacement no triple backtick is left. */
  lemma {:induction false} StripOpeningLeavesNoFence(s: string)
    ensures NoFence(StripOpeningFences(s))
    decreases |s|
  {
    if |s| < 3 {
    } else if FenceAt(s, 0) {
      StripOpeningLeavesNoFence(SkipLineFeed(SkipLetters(s[3..])));
    } else {
      var t := s[1..];
      StripOpeningLeavesNoFence(t);
      var rt := StripOpeningFences(t);
      var r := StripOpeningFences(s);
      assert r == [s[0]] + rt;
      forall i | 0 <= i && i + 3 <= |r|
        ensures !FenceAt(r, i)
      {
        if i > 0 {
          assert FenceAt(r, i) == FenceAt(rt, i - 1);
        } else if s[0] == '`' {
          StripOpeningKeepsHead(t);
          if t[0] == '`' {
            assert t[1] != '`';
          }
        }
      }
    }
  }

  lemma NoFenceSuffix(s: string, k: nat)
    requires NoFence(s) && k <= |s|
    ensures NoFence(s[k..])
  {
    forall i | 0 <= i && i + 3 <= |s[k..]|
      ensures !FenceAt(s[k..], i)
    {
      assert FenceAt(s[k..], i) == FenceAt(s, k + i);
    }
  }

  lemma NoFencePrefix(s: string, k: nat)
    requires NoFence(s) && k <= |s|
    ensures NoFence(s[..k])
  {
    forall i | 0 <= i && i + 3 <= k
      ensures !FenceAt(s[..k], i)
    {
      assert FenceAt(s[..k], i) == FenceAt(s, i);
    }
  }

  /** Text without a triple backtick passes the first replacement unchanged. */
  lemma {:induction false} StripOpeningFixesFenceFree(s: string)
    requires NoFence(s)
    ensures StripOpeningFences(s) == s
    decreases |s|
  {
    if |s| >= 3 {
      assert !FenceAt(s, 0);
      NoFenceSuffix(s, 1);
      StripOpeningFixesFenceFree(s[1..]);
    }
  }

  /** One step of the scan where no match starts. */
  lemma StripOpeningStep(s: string)
    requires |s| >= 3 && !FenceAt(s, 0)
    ensures StripOpeningFences(s) == [s[0]] + StripOpeningFences(s[1..])
  {
  }

  /** One step of the scan where a match starts. */
  lemma StripOpeningMatch(s: string)
    requires |s| >= 3 && FenceAt(s, 0)
    ensures StripOpeningFences(s) == StripOpeningFences(SkipLineFeed(SkipLetters(s[3..])))
  {
  }

  lemma StripOpeningShort(s: string)
    requires |s| < 3
    ensures StripOpeningFences(s) == s
  {
  }

  /** No match can start at the front of `a + b` when `a` is fence-free and does not end
      in a backtick. */
  lemma NoFenceAtJoin(a: string, b: string)
    requires NoFence(a)
    requires a != [] && a[|a| - 1] != '`'
    requires |a + b| >= 3
    ensures !FenceAt(a + b, 0)
  {
    var s := a + b;
    if |a| >= 3 {
      assert !FenceAt(a, 0);
      assert s[0] == a[0];
    } else {
      assert s[|a| - 1] == a[|a| - 1];
    }
  }

  lemma ConsHead(a: string, b: string, x: string)
    requires a != []
    ensures [(a + b)[0]] + (a[1..] + x) == a + x
  {
    assert [a[0]] + a[1..] == a;
  }

  lemma StripOpeningAppendShort(a: string, b: string)
    requires |a + b| < 3
    ensures StripOpeningFences(a + b) == a + StripOpeningFences(b)
  {
    StripOpeningShort(a + b);
    StripOpeningShort(b);
  }

  /** A fence-free prefix that does not end in a backtick is copied through, and the scan
      resumes on what follows it as if that stood alone. */
  lemma {:induction false} StripOpeningAppend(a: string, b: string)
    requires NoFence(a)
    requires a == [] || a[|a| - 1] != '`'
    ensures StripOpeningFences(a + b) == a + StripOpeningFences(b)
    decreases |a|
  {
    if a == [] {
      assert a + b == b;
    } else if |a + b| < 3 {
      StripOpeningAppendShort(a, b);
    } else {
      var s := a + b;
      NoFenceAtJoin(a, b);
      NoFenceSuffix(a, 1);
      assert a[1..] == [] || a[1..][|a[1..]| - 1] != '`';
      StripOpeningAppend(a[1..], b);
      StripOpeningStep(s);
      assert s[1..] == a[1..] + b;
      ConsHead(a, b, StripOpeningFences(b));
    }
  }

  lemma {:induction false} SkipLettersOfTag(tag: string, rest: string)
    requires AllAsciiLetters(tag)
    requires rest == [] || !IsAsciiLetter(rest[0])
    ensures SkipLetters(tag + rest) == rest
    decreases |tag|
  {
    if tag != [] {
      assert (tag + rest)[1..] == tag[1..] + rest;
      SkipLettersOfTag(tag[1..], rest);
    }
  }

  // ----- Lemmas about the whole extractor -----

  /** The second replacement never fires: the first has already removed every triple
      backtick, so the extractor equals trimming the first replacement's output. */
  lemma ClosingReplacementIsInert(s: string)
    ensures StripClosingFence(StripOpeningFences(s)) == StripOpeningFences(s)
  {
    StripOpeningLeavesNoFence(s);
  }

  lemma StripClosingKeepsFenceFree(s: string)
    requires NoFence(s)
    ensures StripClosingFence(s) == s
  {
  }

  /** Trimming keeps a fence-free string fence-free. */
  lemma TrimKeepsNoFence(s: string)
    requires NoFence(s)
    ensures NoFence(Trim(s))
  {
    var t := TrimStart(s);
    TrimStartIsSuffix(s);
    TrimEndIsPrefix(t);
    NoFenceSuffix(s, |s| - |t|);
    NoFencePrefix(t, |TrimEnd(t)|);
  }

  /** The extractor's output contains no triple backtick and has no whitespace at either end. */
  lemma StripFencesIsClean(code: string)
    ensures NoFence(StripFences(code)) && IsTrimmed(StripFences(code))
  {
    ClosingReplacementIsInert(code);
    StripOpeningLeavesNoFence(code);
    TrimKeepsNoFence(StripOpeningFences(code));
    TrimIsTrimmed(StripOpeningFences(code));
  }

  /** Extracting twice is extracting once. */
  lemma StripFencesIdempotent(code: string)
    ensures StripFences(StripFences(code)) == StripFences(code)
  {
    var r := StripFences(code);
    StripFencesIsClean(code);
    StripOpeningFixesFenceFree(r);
    TrimmedIsFixed(r);
  }

  lemma DropPrefix(p: string, q: string)
    ensures |p + q| == |p| + |q| && (p + q)[|p|..] == q
  {
  }

  /** A match at the front takes the fence, a letter-only tag and the line feed after it. */
  lemma StripOpeningOfTagLine(s: string, tag: string, rest: string)
    requires AllAsciiLetters(tag)
    requires rest != [] && rest[0] == '\n'
    requires s == "```" + (tag + rest)
    ensures StripOpeningFences(s) == StripOpeningFences(rest[1..])
  {
    DropPrefix("```", tag + rest);
    StripOpeningMatch(s);
    SkipLettersOfTag(tag, rest);
  }

  /** The first match of a fenced text takes the fence, its tag and the line feed. */
  lemma StripOpeningOfFencedHead(tag: string, body: string)
    requires AllAsciiLetters(tag)
    ensures StripOpeningFences(Fenced(tag, body)) == StripOpeningFences(body + "```")
  {
    var rest := "\n" + (body + "```");
    FencedShape(tag, body);
    DropPrefix("\n", body + "```");
    StripOpeningOfTagLine(Fenced(tag, body), tag, rest);
  }

  lemma FencedShape(tag: string, body: string)
    ensures Fenced(tag, body) == "```" + (tag + ("\n" + (body + "```")))
  {
  }

  /** One or two backticks and a closing fence make a single match that starts at the
      first backtick, so the leading ones come back. */
  lemma StripOpeningOfBackticksClosed(t: string)
    requires |t| <= 2 && forall i :: 0 <= i < |t| ==> t[i] == '`'
    ensures StripOpeningFences(t + "```") == t
  {
    var s := t + "```";
    BackticksThenFence(t, s);
    StripOpeningMatch(s);
    SkipOverBackticks(t);
    StripOpeningShort(t);
  }

  lemma BackticksThenFence(t: string, s: string)
    requires |t| <= 2 && forall i :: 0 <= i < |t| ==> t[i] == '`'
    requires s == t + "```"
    ensures |s| >= 3 && FenceAt(s, 0) && s[3..] == t
  {
  }

  lemma SkipOverBackticks(t: string)
    requires t == [] || t[0] == '`'
    ensures SkipLineFeed(SkipLetters(t)) == t
  {
  }

  /** A closing fence after a fence-free body is consumed by the first replacement. When
      the body ends in one or two backticks, the match starts at the first of them and
      leaves them in place. */
  lemma StripOpeningOfClosed(body: string)
    requires NoFence(body)
    ensures StripOpeningFences(body + "```") == body
  {
    var n := |body|;
    if n == 0 || body[n - 1] != '`' {
      assert body + [] == body;
      StripOpeningOfSplitClosed(body, body, []);
    } else if n == 1 || body[n - 2] != '`' {
      SplitLast(body, 1);
    } else {
      if n >= 3 {
        assert !FenceAt(body, n - 3);
      }
      SplitLast(body, 2);
    }
  }

  /** The closing round trip for a body whose last `k` characters are backticks and whose
      character before those, if any, is not. */
  lemma SplitLast(body: string, k: nat)
    requires NoFence(body)
    requires 1 <= k <= 2 && k <= |body|
    requires forall i :: |body| - k <= i < |body| ==> body[i] == '`'
    requires k == |body| || body[|body| - k - 1] != '`'
    ensures StripOpeningFences(body + "```") == body
  {
    var m := |body| - k;
    var a, t := body[..m], body[m..];
    NoFencePrefix(body, m);
    assert a == [] || a[|a| - 1] == body[m - 1];
    assert forall i :: 0 <= i < |t| ==> t[i] == body[m + i];
    assert a + t == body;
    StripOpeningOfSplitClosed(body, a, t);
  }

  /** The fence-free part not ending in a backtick is copied, and the one or two backticks
      after it start the match that consumes the closing fence. */
  lemma StripOpeningOfSplitClosed(body: string, a: string, t: string)
    requires body == a + t
    requires NoFence(a)
    requires a == [] || a[|a| - 1] != '`'
    requires |t| <= 2 && forall i :: 0 <= i < |t| ==> t[i] == '`'
    ensures StripOpeningFences(body + "```") == body
  {
    assert body + "```" == a + (t + "```");
    StripOpeningAppend(a, t + "```");
    StripOpeningOfBackticksClosed(t);
  }

  /** The first replacement takes a fence-free body back out of a fence with a letter-only
      tag. */
  lemma StripOpeningOfFenced(tag: string, body: string)
    requires AllAsciiLetters(tag)
    requires NoFence(body)
    ensures StripOpeningFences(Fenced(tag, body)) == body
  {
    StripOpeningOfFencedHead(tag, body);
    StripOpeningOfClosed(body);
  }

  /** Round trip: a fence-free body wrapped in a fence with a letter-only language tag comes
      back trimmed. */
  lemma StripFencesOfFenced(tag: string, body: string)
    requires AllAsciiLetters(tag)
    requires NoFence(body)
    ensures StripFences(Fenced(tag, body)) == Trim(body)
  {
    StripOpeningOfFenced(tag, body);
    StripClosingKeepsFenceFree(body);
  }

  /** A fence-free body ending in two backticks is given back whole: the closing fence's
      match starts at the body's first trailing backtick. */
  lemma StripFencesOfFencedBackticks(tag: string, body: string)
    requires AllAsciiLetters(tag)
    requires body == "x``"
    ensures StripFences(Fenced(tag, body)) == body
  {
    BackticksBodyShape(body);
    StripFencesOfFenced(tag, body);
    TrimmedIsFixed(body);
  }

  lemma BackticksBodyShape(body: string)
    requires body == "x``"
    ensures NoFence(body) && IsTrimmed(body)
  {
    assert !FenceAt(body, 0);
  }

  lemma ScanOpeningMatchStep(rest: string, out: string)
    requires |rest| >= 3 && FenceAt(rest, 0)
    requires var next := SkipLineFeed(SkipLetters(rest[3..]));
      ScanOpening(next, out) == out + StripOpeningFences(next)
    ensures ScanOpening(rest, out) == out + StripOpeningFences(rest)
  {
    StripOpeningMatch(rest);
  }

  lemma ScanOpeningCopyStep(rest: string, out: string)
    requires |rest| >= 3 && !FenceAt(rest, 0)
    requires ScanOpening(rest[1..], out + [rest[0]]) == out + [rest[0]] + StripOpeningFences(rest[1..])
    ensures ScanOpening(rest, out) == out + StripOpeningFences(rest)
  {
    StripOpeningStep(rest);
    assert out + [rest[0]] + StripOpeningFences(rest[1..]) == out + ([rest[0]] + StripOpeningFences(rest[1..]));
  }

  /** The pass appends to `out` exactly what the first replacement makes of `rest`. */
  lemma {:induction false} ScanOpeningIsStripOpening(rest: string, out: string)
    ensures ScanOpening(rest, out) == out + StripOpeningFences(rest)
    decreases |rest|
  {
    if |rest| < 3 {
      StripOpeningShort(rest);
    } else if FenceAt(rest, 0) {
      ScanOpeningIsStripOpening(SkipLineFeed(SkipLetters(rest[3..])), out);
      ScanOpeningMatchStep(rest, out);
    } else {
      ScanOpeningIsStripOpening(rest[1..], out + [rest[0]]);
      ScanOpeningCopyStep(rest, out);
    }
  }

  /** The one-pass extractor and the three replacements agree on every input. */
  lemma ExtractCodeIsStripFences(generated: string)
    ensures ExtractCode(generated) == StripFences(generated)
  {
    ScanOpeningIsStripOpening(generated, []);
    assert [] + StripOpeningFences(generated) == StripOpeningFences(generated);
  }

  lemma NoBacktickNoFence(s: string)
    requires '`' !in s
    ensures NoFence(s)
  {
    forall i | 0 <= i && i + 3 <= |s|
      ensures !FenceAt(s, i)
    {
      assert s[i] in s;
    }
  }

  /** A single trimmed line of code without backticks, fenced with a letter-only tag on
      lines of its own, comes back as that line. */
  lemma StripFencesOfFencedLine(tag: string, line: string)
    requires AllAsciiLetters(tag)
    requires '`' !in line && line != [] && IsTrimmed(line)
    ensures StripFences(Fenced(tag, line + "\n")) == line
  {
    var body := line + "\n";
    assert '`' !in body by {
      assert forall i :: 0 <= i < |body| ==> body[i] == if i < |line| then line[i] else '\n';
    }
    NoBacktickNoFence(body);
    StripFencesOfFenced(tag, body);
    TrimDropsLineFeed(line);
  }

  /** The documented example: an `html`-tagged fence around one paragraph. */
  lemma StripFencesExample(generated: string)
    requires generated == "```html\n<p>hi</p>\n```"
    ensures StripFences(generated) == "<p>hi</p>"
  {
    var tag, line := "html", "<p>hi</p>";
    assert generated == Fenced(tag, line + "\n");
    StripFencesOfFencedLine(tag, line);
  }
}
