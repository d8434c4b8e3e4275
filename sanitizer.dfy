/** The response sanitizer: `clean_json_string`, which turns the text a
    generative backend returns into something `json.loads` can read, by
    removing the backticks of Markdown code fences and a `json` tag after
    them (any other tag is left in place), turning raw line feeds into
    spaces, deleting carriage returns and trimming the ends. */
module Sanitizer {
  import opened Strings

  /** The opening fence with its language tag; only the `json` tag is known. */
  const JsonFence := "```json"

  /** The literal part of the pattern, "```json", matches at the head of `s`. */
  predicate AtJsonFence(s: string)
  {
    |s| >= 7 && s[0] == '`' && s[1] == '`' && s[2] == '`' &&
    s[3] == 'j' && s[4] == 's' && s[5] == 'o' && s[6] == 'n'
  }

  /** The match test is "```json" being a prefix. */
  lemma AtJsonFenceIsPrefix(s: string)
    ensures AtJsonFence(s) <==> JsonFence <= s
  {
    if AtJsonFence(s) {
      assert s[..7] == JsonFence;
    }
  }

  /** `re.sub(r'```json\n?', '', s)`: a left-to-right scan that drops each
      "```json" and, when one follows it, the line break after it (the
      optional `\n` is greedy). Any other language tag is left in place. */
  function RemoveJsonFences(s: string): (r: string)
    ensures |r| <= |s|
    decreases |s|
  {
    if s == [] then []
    else if AtJsonFence(s) then
      if |s| > 7 && s[7] == '\n' then RemoveJsonFences(s[8..]) else RemoveJsonFences(s[7..])
    else [s[0]] + RemoveJsonFences(s[1..])
  }

  /** The fence scan keeps only characters of the input. */
  lemma {:induction false} RemoveJsonFencesKeepsChars(s: string)
    ensures forall c :: c in RemoveJsonFences(s) ==> c in s
    decreases |s|
  {
    if s != [] {
      var k := if !AtJsonFence(s) then 1 else if |s| > 7 && s[7] == '\n' then 8 else 7;
      RemoveJsonFencesKeepsChars(s[k..]);
      assert forall c :: c in s[k..] ==> c in s;
    }
  }

  /** Text in which "```json" never occurs passes the fence scan unchanged. */
  lemma {:induction false} RemoveJsonFencesWithout(s: string)
    requires !Contains(s, JsonFence)
    ensures RemoveJsonFences(s) == s
    decreases |s|
  {
    if s != [] {
      AtJsonFenceIsPrefix(s);
      RemoveJsonFencesWithout(s[1..]);
      assert [s[0]] + s[1..] == s;
    }
  }

  /** Where no "```json" starts, the character is kept and the scan moves on. */
  lemma RemoveJsonFencesKeep(s: string)
    requires s != [] && !AtJsonFence(s)
    ensures RemoveJsonFences(s) == [s[0]] + RemoveJsonFences(s[1..])
  {
  }

  /** A character other than a backtick is kept and the scan moves on. */
  lemma RemoveJsonFencesHead(s: string)
    requires s != [] && s[0] != '`'
    ensures RemoveJsonFences(s) == [s[0]] + RemoveJsonFences(s[1..])
  {
  }

  /** Text without a backtick passes through the fence scan untouched. */
  lemma {:induction false} RemoveJsonFencesAppend(a: string, b: string)
    requires '`' !in a
    ensures RemoveJsonFences(a + b) == a + RemoveJsonFences(b)
    decreases |a|
  {
    if a != [] {
      assert (a + b)[0] == a[0];
      assert (a + b)[1..] == a[1..] + b;
      RemoveJsonFencesHead(a + b);
      RemoveJsonFencesAppend(a[1..], b);
    } else {
      assert a + b == b;
    }
  }

  /** A "```json" followed by a line break is dropped together with it;
      the text before it, having no backtick, is kept. */
  lemma RemoveJsonFencesDropsFenceLine(a: string, b: string)
    requires '`' !in a
    ensures RemoveJsonFences(a + "```json\n" + b) == a + RemoveJsonFences(b)
  {
    var f := "```json\n" + b;
    assert a + "```json\n" + b == a + f;
    RemoveJsonFencesAppend(a, f);
    assert AtJsonFence(f) && f[7] == '\n' && f[8..] == b;
  }

  /** A "```json" not followed by a line break is dropped on its own; what
      follows it is scanned on. */
  lemma RemoveJsonFencesDropsFence(a: string, b: string)
    requires '`' !in a
    requires b == [] || b[0] != '\n'
    ensures RemoveJsonFences(a + "```json" + b) == a + RemoveJsonFences(b)
  {
    var f := "```json" + b;
    assert a + "```json" + b == a + f;
    RemoveJsonFencesAppend(a, f);
    assert AtJsonFence(f) && f[7..] == b;
    if |f| > 7 {
      assert f[7] == b[0];
    }
  }

  /** A lone backtick before text that does not start with one is kept. */
  lemma RemoveJsonFencesOneTick(t: string)
    requires t == [] || t[0] != '`'
    ensures RemoveJsonFences("`" + t) == "`" + RemoveJsonFences(t)
  {
    var s := "`" + t;
    assert s[1..] == t;
    RemoveJsonFencesKeep(s);
  }

  /** Two backticks before text that does not start with one are kept. */
  lemma RemoveJsonFencesTwoTicks(t: string)
    requires t == [] || t[0] != '`'
    ensures RemoveJsonFences("``" + t) == "``" + RemoveJsonFences(t)
  {
    var s := "``" + t;
    RemoveJsonFencesOneTick(t);
    assert s[1..] == "`" + t;
    RemoveJsonFencesKeep(s);
    assert "`" + ("`" + RemoveJsonFences(t)) == "``" + RemoveJsonFences(t);
  }

  /** A fence with no tag, or with a tag other than `json`, is not touched by
      the scan for "```json". */
  lemma RemoveJsonFencesBareFence(t: string)
    requires t == [] || (t[0] != '`' && !("json" <= t))
    ensures RemoveJsonFences(Fence + t) == Fence + RemoveJsonFences(t)
  {
    var s := Fence + t;
    RemoveJsonFencesTwoTicks(t);
    if AtJsonFence(s) {
      JsonTagAfterFence(t);
    }
    assert s[1..] == "``" + t;
    RemoveJsonFencesKeep(s);
    assert "`" + ("``" + RemoveJsonFences(t)) == Fence + RemoveJsonFences(t);
  }

  /** A "```json" that starts at a fence has `json` right after the fence. */
  lemma JsonTagAfterFence(t: string)
    requires AtJsonFence(Fence + t)
    ensures "json" <= t
  {
    var s := Fence + t;
    forall i | 0 <= i < 4 ensures t[i] == "json"[i] {
      assert t[i] == s[i + 3];
    }
    assert t[..4] == "json";
  }

  /** `clean_json_string`: the four rewriting steps in the order the source
      applies them, then `strip()`. Whatever the input, the output holds no
      line feed, no carriage return and no whitespace at either end. */
  function Clean(raw: string): (r: string)
    ensures '\n' !in r && '\r' !in r
    ensures r == [] || (!IsSpace(r[0]) && !IsSpace(r[|r| - 1]))
  {
    var unfenced := RemoveJsonFences(raw);
    var untagged := RemoveAll(unfenced, Fence);
    var spaced := ReplaceChar(untagged, '\n', ' ');
    var joined := DeleteChar(spaced, '\r');
    DeleteCharKeepsOthers(spaced, '\r');
    assert multiset(joined)['\n'] == multiset(spaced)['\n'] == 0;
    StripKeepsChars(joined);
    Strip(joined)
  }

  /** `Clean` read step by step, for input whose fence scans and line-break
      replacement are already known and which holds no carriage return. */
  lemma CleanInSteps(raw: string, unfenced: string, spaced: string)
    requires RemoveAll(RemoveJsonFences(raw), Fence) == unfenced
    requires ReplaceChar(unfenced, '\n', ' ') == spaced
    requires '\r' !in spaced
    ensures Clean(raw) == Strip(spaced)
  {
  }

  /** Input with no fence, no line break and no outer whitespace is what
      the sanitizer returns for it. */
  lemma CleanKeepsCleanText(s: string)
    requires !Contains(s, Fence)
    requires '\n' !in s && '\r' !in s
    requires s == [] || (!IsSpace(s[0]) && !IsSpace(s[|s| - 1]))
    ensures Clean(s) == s
  {
    CleanUnfencedText(s);
    StripTrimmed(s);
  }

  /** Text with no triple backtick and no line feed goes through both fence
      scans and the line-feed replacement unchanged. */
  lemma CleanUnfencedText(raw: string)
    requires !Contains(raw, Fence) && '\n' !in raw
    ensures Clean(raw) == Strip(DeleteChar(raw, '\r'))
  {
    if Contains(raw, JsonFence) {
      ContainsPrefixOf(raw, JsonFence, Fence);
    }
    RemoveJsonFencesWithout(raw);
  }

  /** Both fence scans together take a `json`-tagged fence apart down to
      its payload line. */
  lemma UnfenceJsonBlock(s: string)
    requires '`' !in s
    ensures RemoveAll(RemoveJsonFences("```json\n" + s + "\n```"), Fence) == s + "\n"
  {
    var raw, unfenced := "```json\n" + s + "\n```", s + "\n```";
    assert RemoveJsonFences(raw) == unfenced by {
      assert AtJsonFence(raw) && raw[7] == '\n';
      assert raw[8..] == unfenced;
      assert RemoveJsonFences("\n```") == "\n```" by {
        RemoveJsonFencesHead("\n```");
        assert "\n```"[1..] == Fence;
        if Contains(Fence, JsonFence) {
          ContainsNoLonger(Fence, JsonFence);
        }
        RemoveJsonFencesWithout(Fence);
      }
      RemoveJsonFencesAppend(s, "\n```");
    }
    assert RemoveAll(unfenced, Fence) == s + "\n" by {
      RemoveAllAppend(s, "\n```", Fence);
      assert RemoveAll("\n```", Fence) == "\n" by {
        assert "\n```" == "\n" + Fence;
        RemoveAllAppend("\n", Fence, Fence);
        assert RemoveAll(Fence, Fence) == [];
      }
    }
  }

  /** The line break after a one-line payload becomes a space. */
  lemma TrailingBreakToSpace(s: string)
    requires '\n' !in s
    ensures ReplaceChar(s + "\n", '\n', ' ') == s + " "
  {
    ReplaceCharAppend(s, "\n", '\n', ' ');
    assert ReplaceChar("\n", '\n', ' ')[0] == ' ';
  }

  /** `strip()` drops one trailing space from text that has no whitespace
      at its ends. */
  lemma StripTrailingSpace(s: string)
    requires s == [] || (!IsSpace(s[0]) && !IsSpace(s[|s| - 1]))
    ensures Strip(s + " ") == s
  {
    StripSurroundingSpace([], s, " ");
    assert [] + s + " " == s + " ";
  }

  /** The sanitizer removes exactly the fence markers around a one-line
      payload and nothing else. */
  lemma CleanStripsFences(s: string)
    requires '`' !in s && '\n' !in s && '\r' !in s
    requires s == [] || (!IsSpace(s[0]) && !IsSpace(s[|s| - 1]))
    ensures Clean("```json\n" + s + "\n```") == s
  {
    UnfenceJsonBlock(s);
    TrailingBreakToSpace(s);
    CleanInSteps("```json\n" + s + "\n```", s + "\n", s + " ");
    StripTrailingSpace(s);
  }

  /** Without carriage returns in the input, cleaning twice is cleaning
      once: the fence scan leaves no triple backtick behind and no later
      step creates one. */
  lemma CleanIdempotent(raw: string)
    requires '\r' !in raw
    ensures Clean(Clean(raw)) == Clean(raw)
  {
    var untagged := RemoveAll(RemoveJsonFences(raw), Fence);
    var spaced := ReplaceChar(untagged, '\n', ' ');
    RemoveFenceLeavesNone(RemoveJsonFences(raw));
    RemoveJsonFencesKeepsChars(raw);
    RemoveAllKeepsChars(RemoveJsonFences(raw), Fence);
    ReplaceCharKeepsAbsent(untagged, '\n', ' ', Fence);
    assert DeleteChar(spaced, '\r') == spaced;
    var y := Clean(raw);
    assert y == Strip(spaced);
    if Contains(y, Fence) {
      var i, j :| 0 <= i <= j <= |spaced| && y == spaced[i..j];
      ContainsInSlice(spaced, i, j, Fence);
    }
    CleanKeepsCleanText(y);
  }

  /** "``\r`" holds no triple backtick. */
  lemma BrokenFenceIsNoFence()
    ensures !Contains("``\r`", Fence)
  {
    var raw := "``\r`";
    assert raw[2] == '\r' && Fence[2] == '`';
    assert raw[1..] == "`\r`" && raw[1..][1] == '\r' && Fence[1] == '`';
    assert raw[1..][1..] == "\r`";
    if Contains("\r`", Fence) {
      ContainsNoLonger("\r`", Fence);
    }
  }

  /** Deleting the carriage return in "``\r`" joins its backticks. */
  lemma BrokenFenceJoins()
    ensures DeleteChar("``\r`", '\r') == "```"
  {
    assert "``\r`" == "``" + "\r`";
    assert DeleteChar("`", '\r') == "`";
  }

  /** The sanitizer turns "``\r`" into three backticks. */
  lemma CleanJoinsBackticks()
    ensures Clean("``\r`") == "```"
  {
    BrokenFenceIsNoFence();
    CleanUnfencedText("``\r`");
    BrokenFenceJoins();
    StripTrimmed("```");
  }

  /** A bare triple backtick cleans to nothing. */
  lemma CleanBareFence()
    ensures Clean("```") == ""
  {
    assert RemoveJsonFences(Fence) == Fence by {
      if Contains(Fence, JsonFence) {
        ContainsNoLonger(Fence, JsonFence);
      }
    }
    assert RemoveAll(Fence, Fence) == [];
    CleanInSteps(Fence, [], []);
  }

  /** With a carriage return the sanitizer is not idempotent: deleting the
      `\r` in "``\r`" joins three backticks that only a second pass removes. */
  lemma CleanNotIdempotent()
    ensures Clean("``\r`") == "```"
    ensures Clean(Clean("``\r`")) == ""
  {
    CleanJoinsBackticks();
    CleanBareFence();
  }

  /** The two line breaks around a one-line payload become spaces. */
  lemma LineBreaksToSpaces(a: string, b: string)
    requires '\n' !in a && '\n' !in b
    ensures ReplaceChar(a + "\n" + b + "\n", '\n', ' ') == a + " " + b + " "
  {
    ReplaceCharAppend(a + "\n" + b, "\n", '\n', ' ');
    ReplaceCharAppend(a + "\n", b, '\n', ' ');
    ReplaceCharAppend(a, "\n", '\n', ' ');
    assert ReplaceChar("\n", '\n', ' ')[0] == ' ';
  }

  /** A word that does not start with "json", followed by a character that
      does not occur in "json", never starts with "json". */
  lemma NotJsonTagged(tag: string, c: char, rest: string)
    requires !("json" <= tag) && c !in "json"
    ensures !("json" <= tag + [c] + rest)
  {
    var t := tag + [c] + rest;
    if |tag| < 4 {
      assert t[|tag|] == c;
    }
  }

  /** The scan for "```json" leaves a fenced block with any other tag as it
      is. */
  lemma OtherTagIsNotJsonFence(body: string)
    requires '`' !in body && body != [] && !("json" <= body)
    ensures RemoveJsonFences(Fence + body + Fence) == Fence + body + Fence
  {
    var t := body + Fence;
    assert Fence + body + Fence == Fence + t;
    assert t == body + ['`'] + "``";
    NotJsonTagged(body, '`', "``");
    assert t[0] == body[0];
    RemoveJsonFencesBareFence(t);
    RemoveJsonFencesAppend(body, Fence);
    if Contains(Fence, JsonFence) {
      ContainsNoLonger(Fence, JsonFence);
    }
  }

  /** Both fence scans together take a fenced block with any other tag apart
      down to its contents. */
  lemma UnfenceOtherTag(body: string)
    requires '`' !in body && body != [] && !("json" <= body)
    ensures RemoveAll(RemoveJsonFences(Fence + body + Fence), Fence) == body
  {
    OtherTagIsNotJsonFence(body);
    var raw := Fence + body + Fence;
    assert Fence <= raw && raw[3..] == body + Fence;
    RemoveAllAppend(body, Fence, Fence);
    assert RemoveAll(Fence, Fence) == [];
  }

  /** The tag and the payload, joined by a space and stripped. */
  lemma StripJoinedLine(tag: string, s: string)
    requires tag == [] || (!IsSpace(tag[0]) && !IsSpace(tag[|tag| - 1]))
    requires s == [] || (!IsSpace(s[0]) && !IsSpace(s[|s| - 1]))
    ensures Strip(tag + " " + s + " ") ==
      if tag == [] then s else if s == [] then tag else tag + " " + s
  {
    if tag == [] {
      assert tag + " " + s + " " == " " + s + " ";
      StripSurroundingSpace(" ", s, " ");
    } else if s == [] {
      assert tag + " " + s + " " == [] + tag + "  ";
      StripSurroundingSpace([], tag, "  ");
    } else {
      assert tag + " " + s + " " == [] + (tag + " " + s) + " ";
      StripSurroundingSpace([], tag + " " + s, " ");
    }
  }

  /** A fence with any other tag, or with none, is removed but its tag is
      left behind, joined to the payload by the space that replaced the
      line break; a `python` fence gives "python" and then the payload. */
  lemma CleanKeepsOtherTags(tag: string, s: string)
    requires '`' !in tag && '\n' !in tag && '\r' !in tag && !("json" <= tag)
    requires tag == [] || (!IsSpace(tag[0]) && !IsSpace(tag[|tag| - 1]))
    requires '`' !in s && '\n' !in s && '\r' !in s
    requires s == [] || (!IsSpace(s[0]) && !IsSpace(s[|s| - 1]))
    ensures Clean("```" + tag + "\n" + s + "\n```") ==
      if tag == [] then s else if s == [] then tag else tag + " " + s
  {
    var raw := "```" + tag + "\n" + s + "\n```";
    var unfenced, spaced := tag + "\n" + s + "\n", tag + " " + s + " ";
    assert RemoveAll(RemoveJsonFences(raw), Fence) == unfenced by {
      assert raw == Fence + unfenced + Fence;
      assert unfenced == tag + ['\n'] + (s + "\n");
      NotJsonTagged(tag, '\n', s + "\n");
      assert unfenced[0] != '`';
      UnfenceOtherTag(unfenced);
    }
    assert ReplaceChar(unfenced, '\n', ' ') == spaced by { LineBreaksToSpaces(tag, s); }
    assert '\r' !in spaced;
    CleanInSteps(raw, unfenced, spaced);
    StripJoinedLine(tag, s);
  }
}
