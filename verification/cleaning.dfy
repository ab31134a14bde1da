/**
 * Reply cleaning in the second revision of the back end (`clean_llm_code`):
 * every fence marker is deleted together with the whitespace after it,
 * lines that open with a conversational phrase are dropped, and the kept
 * lines are joined again and trimmed.
 */
module Cleaning {
  import opened Text
  import opened Markdown

  /** The line separator. */
  const NewLine: char := '\n'

  // ---------------------------------------------------------------------
  // Deleting the fence markers

  /** `re.sub(r'```python\s*|```\s*', '', s)`: scanning left to right, a
      "```python" with the whitespace after it is deleted, else a "```" with
      the whitespace after it, else one character is kept and the scan moves
      on by one. */
  function RemoveFenceMarkers(s: string): (r: string)
    ensures r != [] && r[0] == '`' ==> s != [] && s[0] == '`'
    ensures |r| >= 2 && r[0] == '`' && r[1] == '`' ==> |s| >= 2 && s[0] == '`' && s[1] == '`'
    ensures !Occurs(r, Fence)
    decreases |s|
  {
    if |s| == 0 then []
    else if PyFence <= s then
      assert s[0] == PyFence[0] && s[1] == PyFence[1];
      RemoveFenceMarkers(LStrip(s[|PyFence|..]))
    else if Fence <= s then
      assert s[0] == Fence[0] && s[1] == Fence[1];
      RemoveFenceMarkers(LStrip(s[|Fence|..]))
    else
      var rest := RemoveFenceMarkers(s[1..]);
      FenceAtHead(s);
      ConsNoFence(s[0], rest);
      [s[0]] + rest
  }

  /** Three backticks at the start are a marker. */
  lemma FenceAtHead(s: string)
    ensures |s| >= 3 && s[0] == '`' && s[1] == '`' && s[2] == '`' ==> Fence <= s
  {
    if |s| >= 3 && s[0] == '`' && s[1] == '`' && s[2] == '`' {
      assert s[..3] == Fence;
    }
  }

  /** An occurrence of "```" in `[c] + r`. */
  lemma ConsFence(c: char, r: string, i: int)
    requires OccursAt([c] + r, Fence, i)
    ensures (i >= 1 && OccursAt(r, Fence, i - 1)) || (i == 0 && c == '`' && |r| >= 2 && r[0] == '`' && r[1] == '`')
  {
    var s := [c] + r;
    if i >= 1 {
      assert s[i..i + 3] == r[i - 1..i + 2];
    } else {
      assert c == s[0..3][0] == '`';
      assert r[0] == s[0..3][1] == '`';
      assert r[1] == s[0..3][2] == '`';
    }
  }

  /** A character put before text without "```" creates one only as the
      first of three backticks. */
  lemma ConsNoFence(c: char, r: string)
    ensures !Occurs(r, Fence) && !(c == '`' && |r| >= 2 && r[0] == '`' && r[1] == '`') ==> !Occurs([c] + r, Fence)
  {
    if !Occurs(r, Fence) && !(c == '`' && |r| >= 2 && r[0] == '`' && r[1] == '`') {
      forall i ensures !OccursAt([c] + r, Fence, i) {
        if OccursAt([c] + r, Fence, i) {
          ConsFence(c, r, i);
        }
      }
    }
  }

  /** Where no marker starts, the first character is kept. */
  lemma RemoveKeepsHead(s: string)
    requires |s| > 0 && !(Fence <= s)
    ensures RemoveFenceMarkers(s) == [s[0]] + RemoveFenceMarkers(s[1..])
  {
    PyFenceStartsWithFence(s);
  }

  /** Text without any "```" is left as it is. */
  lemma {:induction false} RemoveFenceMarkersIdentity(s: string)
    requires !Occurs(s, Fence)
    ensures RemoveFenceMarkers(s) == s
    decreases |s|
  {
    if |s| > 0 {
      assert !(Fence <= s) by {
        assert !OccursAt(s, Fence, 0);
      }
      RemoveKeepsHead(s);
      assert !Occurs(s[1..], Fence) by {
        OccursShift(s, Fence);
      }
      RemoveFenceMarkersIdentity(s[1..]);
      assert s == [s[0]] + s[1..];
    }
  }

  /** Deleting the markers twice is deleting them once. */
  lemma RemoveFenceMarkersIdempotent(s: string)
    ensures RemoveFenceMarkers(RemoveFenceMarkers(s)) == RemoveFenceMarkers(s)
  {
    RemoveFenceMarkersIdentity(RemoveFenceMarkers(s));
  }

  /** Text in which no "```" starts is kept unchanged and in order. */
  lemma {:induction false} RemoveFenceMarkersKeepsPlain(a: string, b: string)
    requires forall i | 0 <= i < |a| :: !(Fence <= (a + b)[i..])
    ensures RemoveFenceMarkers(a + b) == a + RemoveFenceMarkers(b)
    decreases |a|
  {
    if |a| > 0 {
      PlainHead(a, b);
      PlainTail(a, b);
      RemoveFenceMarkersKeepsPlain(a[1..], b);
      HeadThenRest(a, RemoveFenceMarkers(b));
    } else {
      assert a + b == b;
    }
  }

  lemma HeadThenRest(a: string, x: string)
    requires |a| > 0
    ensures [a[0]] + (a[1..] + x) == a + x
  {
    assert a == [a[0]] + a[1..];
  }

  /** The first character of a text that does not start with "```" is kept. */
  lemma PlainHead(a: string, b: string)
    requires |a| > 0 && !(Fence <= (a + b)[0..])
    ensures RemoveFenceMarkers(a + b) == [a[0]] + RemoveFenceMarkers(a[1..] + b)
  {
    var s := a + b;
    assert s[0..] == s;
    RemoveKeepsHead(s);
    assert s[1..] == a[1..] + b;
  }

  /** Where no "```" starts in `a`, none starts in `a[1..]` either. */
  lemma PlainTail(a: string, b: string)
    requires |a| > 0
    requires forall i | 0 <= i < |a| :: !(Fence <= (a + b)[i..])
    ensures forall i | 0 <= i < |a[1..]| :: !(Fence <= (a[1..] + b)[i..])
  {
    forall i | 0 <= i < |a[1..]| ensures !(Fence <= (a[1..] + b)[i..]) {
      assert (a[1..] + b)[i..] == (a + b)[i + 1..];
    }
  }

  /** A marker at the start is deleted with the whitespace after it. */
  lemma RemoveAtMarker(m: string, ws: string, b: string)
    requires m == PyFence || (m == Fence && !(PyFence <= m + ws + b))
    requires forall k | 0 <= k < |ws| :: IsSpace(ws[k])
    requires b == [] || !IsSpace(b[0])
    ensures RemoveFenceMarkers(m + ws + b) == RemoveFenceMarkers(b)
  {
    var s := m + ws + b;
    assert LStrip(s[|m|..]) == b by {
      assert s[|m|..] == ws + b;
      LStripPadded(ws, b);
    }
    if m == PyFence {
      assert PyFence <= s by { assert s[..|m|] == m; }
    } else {
      assert Fence <= s by { assert s[..|m|] == m; }
    }
  }

  /** A marker is deleted together with the whitespace after it, and the
      text before it, in which no "```" starts, is kept as it is. */
  lemma RemoveMarker(a: string, m: string, ws: string, b: string)
    requires forall i | 0 <= i < |a| :: !(Fence <= (a + m + ws + b)[i..])
    requires m == PyFence || (m == Fence && !(PyFence <= m + ws + b))
    requires forall k | 0 <= k < |ws| :: IsSpace(ws[k])
    requires b == [] || !IsSpace(b[0])
    ensures RemoveFenceMarkers(a + m + ws + b) == a + RemoveFenceMarkers(b)
  {
    var s := m + ws + b;
    assert a + m + ws + b == a + s;
    assert RemoveFenceMarkers(a + s) == a + RemoveFenceMarkers(s) by {
      RemoveFenceMarkersKeepsPlain(a, s);
    }
    assert RemoveFenceMarkers(s) == RemoveFenceMarkers(b) by {
      RemoveAtMarker(m, ws, b);
    }
  }

  // ---------------------------------------------------------------------
  // Conversational lines

  /** The openers that mark a line as conversation rather than code. */
  const Openers: seq<string> := ["here is", "sure", "this code", "below is"]

  /** Every opener has at least four letters and starts with 'h', 's', 't'
      or 'b'. */
  lemma OpenersShape(low: string)
    ensures (exists i | 0 <= i < |Openers| :: Openers[i] <= low) ==> |low| >= 4 && low[0] in "hstb"
  {
    if exists i | 0 <= i < |Openers| :: Openers[i] <= low {
      var i :| 0 <= i < |Openers| && Openers[i] <= low;
      assert low[0] == Openers[i][0];
    }
  }

  /** `line.strip().lower().startswith(...)` over the openers. A line that
      is dropped has at least four characters once trimmed, the first of
      them one of "hstbHSTB"; so blank lines and lines starting with any
      other character are always kept. */
  predicate IsConversational(line: string): (conv: bool)
    ensures conv ==> |Strip(line)| >= 4 && Strip(line)[0] in "hstbHSTB"
  {
    OpenersShape(Lower(Strip(line)));
    exists i | 0 <= i < |Openers| :: Openers[i] <= Lower(Strip(line))
  }

  /** Whether a line is conversational depends only on its stripped text. */
  lemma ConversationalByStrip(l: string, m: string)
    requires Strip(l) == Strip(m)
    ensures IsConversational(l) <==> IsConversational(m)
  {
  }

  /** Leading and trailing whitespace does not make a line conversational. */
  lemma ConversationalPadded(pre: string, l: string, post: string)
    requires forall k | 0 <= k < |pre| :: IsSpace(pre[k])
    requires forall k | 0 <= k < |post| :: IsSpace(post[k])
    ensures IsConversational(pre + l + post) <==> IsConversational(l)
  {
    StripPadded(pre, l, post);
  }

  /** An empty line is code. */
  lemma EmptyLineIsCode()
    ensures !IsConversational([])
  {
    assert StripAt([], [], 0);
    StripUnique([], []);
  }

  /** The lines the loop keeps: the non-conversational ones, in order. */
  function CodeLines(lines: seq<string>): (kept: seq<string>)
    ensures |kept| <= |lines|
    ensures forall l :: l in kept <==> l in lines && !IsConversational(l)
  {
    if |lines| == 0 then []
    else
      var init, last := lines[..|lines| - 1], lines[|lines| - 1];
      assert lines == init + [last];
      CodeLines(init) + (if IsConversational(last) then [] else [last])
  }

  /** Filtering distributes over concatenation, so the kept lines keep
      their relative order. */
  lemma {:induction false} CodeLinesAppend(a: seq<string>, b: seq<string>)
    ensures CodeLines(a + b) == CodeLines(a) + CodeLines(b)
    decreases |b|
  {
    if |b| == 0 {
      assert a + b == a;
    } else {
      var init, last := b[..|b| - 1], b[|b| - 1];
      assert (a + b)[..|a + b| - 1] == a + init;
      assert (a + b)[|a + b| - 1] == last;
      CodeLinesAppend(a, init);
      SeqAssoc(CodeLines(a), CodeLines(init), if IsConversational(last) then [] else [last]);
    }
  }

  lemma SeqAssoc(p: seq<string>, q: seq<string>, r: seq<string>)
    ensures (p + q) + r == p + (q + r)
  {
  }

  /** One more line: kept at the end exactly when it is not conversational. */
  lemma CodeLinesSnoc(lines: seq<string>, l: string)
    ensures CodeLines(lines + [l]) == CodeLines(lines) + if IsConversational(l) then [] else [l]
  {
    var s := lines + [l];
    assert s[..|s| - 1] == lines;
  }

  /** The loop step: the kept lines of a prefix one line longer. */
  lemma CodeLinesPrefix(lines: seq<string>, i: int)
    requires 0 <= i < |lines|
    ensures CodeLines(lines[..i + 1]) == CodeLines(lines[..i]) + if IsConversational(lines[i]) then [] else [lines[i]]
  {
    assert lines[..i + 1] == lines[..i] + [lines[i]];
    CodeLinesSnoc(lines[..i], lines[i]);
  }

  /** A single line is kept exactly when it is not conversational. */
  lemma CodeLinesSingle(l: string)
    ensures CodeLines([l]) == if IsConversational(l) then [] else [l]
  {
    assert [l][..0] == [];
  }

  /** When no line is conversational all are kept. */
  lemma {:induction false} CodeLinesAllCode(lines: seq<string>)
    requires forall l | l in lines :: !IsConversational(l)
    ensures CodeLines(lines) == lines
    decreases |lines|
  {
    if |lines| > 0 {
      var init := lines[..|lines| - 1];
      assert lines == init + [lines[|lines| - 1]];
      CodeLinesAllCode(init);
    }
  }

  // ---------------------------------------------------------------------
  // The whole cleaning

  /** What `clean_llm_code` returns for `raw`: the trimmed newline-join of
      the kept lines of the de-fenced text. No "```" survives, the result
      has no whitespace at either end, and no line of it, not only no kept
      line, is conversational. */
  function Cleaned(raw: string): (code: string)
    ensures !Occurs(code, Fence)
    ensures code == [] || (!IsSpace(code[0]) && !IsSpace(code[|code| - 1]))
    ensures forall line | line in Split(code, [NewLine]) :: !IsConversational(line)
  {
    var text := RemoveFenceMarkers(raw);
    var kept := CodeLines(Split(text, [NewLine]));
    var joined := Join(kept, [NewLine]);
    SplitPiecesAvoid(text, [NewLine], Fence);
    JoinAvoids(kept, NewLine, Fence);
    StripAvoids(joined, Fence);
    KeptTextLines(text);
    StrippedStaysCode(joined);
    Strip(joined)
  }

  /** `clean_llm_code`: the loop over the lines of the de-fenced text with
      its `continue` on conversational lines. */
  method CleanLlmCode(rawCode: string) returns (code: string)
    ensures code == Cleaned(rawCode)
    ensures !Occurs(code, Fence)
    ensures code == [] || (!IsSpace(code[0]) && !IsSpace(code[|code| - 1]))
    ensures forall line | line in Split(code, [NewLine]) :: !IsConversational(line)
  {
    var text := RemoveFenceMarkers(rawCode);
    var lines := Split(text, [NewLine]);
    var cleanedLines: seq<string> := [];
    for i := 0 to |lines|
      invariant cleanedLines == CodeLines(lines[..i])
    {
      CodeLinesPrefix(lines, i);
      if IsConversational(lines[i]) {
        continue;
      }
      cleanedLines := cleanedLines + [lines[i]];
    }
    assert lines[..|lines|] == lines;
    code := Strip(Join(cleanedLines, [NewLine]));
  }

  /** The kept lines hold no line separator. */
  lemma KeptLinesSingle(text: string)
    ensures forall l | l in CodeLines(Split(text, [NewLine])) :: NewLine !in l
  {
    SplitPiecesAvoidSep(text, [NewLine]);
    forall l | l in Split(text, [NewLine]) ensures NewLine !in l {
      OccursChar(l, NewLine);
    }
  }

  /** Every line of the kept text is one of the kept lines. */
  lemma KeptTextLines(text: string)
    ensures var kept := CodeLines(Split(text, [NewLine]));
      forall m | m in Split(Join(kept, [NewLine]), [NewLine]) :: !IsConversational(m)
  {
    var kept := CodeLines(Split(text, [NewLine]));
    if |kept| == 0 {
      OccursChar([], NewLine);
      SplitWhole([], [NewLine]);
      EmptyLineIsCode();
    } else {
      KeptLinesSingle(text);
      SplitJoin(kept, NewLine);
    }
  }

  /** Trimming a text whose lines are all code leaves every line code:
      each line of the trimmed text is, once trimmed, a trimmed line of the
      original. */
  lemma StrippedStaysCode(joined: string)
    ensures (forall m | m in Split(joined, [NewLine]) :: !IsConversational(m)) ==>
      forall line | line in Split(Strip(joined), [NewLine]) :: !IsConversational(line)
  {
    StripLinesCovered(joined, NewLine);
    if forall m | m in Split(joined, [NewLine]) :: !IsConversational(m) {
      forall line | line in Split(Strip(joined), [NewLine]) ensures !IsConversational(line) {
        var m :| m in Split(joined, [NewLine]) && Strip(line) == Strip(m);
        ConversationalByStrip(line, m);
      }
    }
  }

  /** Cleaning an already cleaned text changes nothing. */
  lemma CleanedIdempotent(raw: string)
    ensures Cleaned(Cleaned(raw)) == Cleaned(raw)
  {
    var code := Cleaned(raw);
    RemoveFenceMarkersIdentity(code);
    CodeLinesAllCode(Split(code, [NewLine]));
    JoinSplit(code, [NewLine]);
    StripIdempotent(Join(CodeLines(Split(RemoveFenceMarkers(raw), [NewLine])), [NewLine]));
  }
}
