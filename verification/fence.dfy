/**
 * Fence extraction in the first revision of the back end
 * (`text_to_cadquery`): the model's reply is cut down to the body of its
 * first markdown code fence, preferring a fence opened with "```python",
 * and trimmed. The reply itself comes from a network call and is a
 * parameter here.
 */
module FenceExtraction {
  import opened Text
  import opened Markdown

  /** The text that is trimmed: the piece the two `split`s select, or the
      whole reply when it holds no fence marker. */
  function FenceBody(reply: string): (body: string)
    ensures !Occurs(body, Fence)
  {
    if Contains(reply, PyFence) then
      var rest := Split(reply, PyFence)[1];
      SplitFirstPieces(rest, Fence);
      BeforeAvoids(rest, Fence);
      Split(rest, Fence)[0]
    else if Contains(reply, Fence) then
      var rest := Split(reply, Fence)[1];
      SplitFirstPieces(rest, Fence);
      BeforeAvoids(rest, Fence);
      Split(rest, Fence)[0]
    else
      PyFenceImpliesFence(reply);
      reply
  }

  /** The code `text_to_cadquery` returns for the reply `reply`: it never
      holds a fence marker and has no whitespace at either end. */
  function ExtractCode(reply: string): (code: string)
    ensures !Occurs(code, Fence)
    ensures code == [] || (!IsSpace(code[0]) && !IsSpace(code[|code| - 1]))
  {
    StripAvoids(FenceBody(reply), Fence);
    Strip(FenceBody(reply))
  }

  /** A reply without any fence marker is only trimmed. */
  lemma ExtractUnfenced(reply: string)
    requires !Occurs(reply, Fence)
    ensures ExtractCode(reply) == Strip(reply)
  {
    PyFenceImpliesFence(reply);
  }

  /** A reply with a "```python" marker: the text after the first such
      marker, cut at the next "```python" (the first `split`) and then at
      the next "```" (the second `split`), trimmed. */
  lemma ExtractPython(reply: string)
    requires Occurs(reply, PyFence)
    ensures ExtractCode(reply) == Strip(Before(Before(After(reply, PyFence), PyFence), Fence))
  {
    SplitFirstPieces(reply, PyFence);
    SplitFirstPieces(Split(reply, PyFence)[1], Fence);
  }

  /** A reply with "```" but no "```python": the text between the first
      and the second "```", or everything after the only one, trimmed. */
  lemma ExtractPlain(reply: string)
    requires Occurs(reply, Fence) && !Occurs(reply, PyFence)
    ensures ExtractCode(reply) == Strip(Before(After(reply, Fence), Fence))
    ensures !Occurs(After(reply, Fence), Fence) ==> ExtractCode(reply) == Strip(After(reply, Fence))
  {
    var rest := Split(reply, Fence)[1];
    assert FenceBody(reply) == Split(rest, Fence)[0];
    assert rest == Before(After(reply, Fence), Fence) by { SplitFirstPieces(reply, Fence); }
    SplitFirstPieces(rest, Fence);
    BeforeAvoids(After(reply, Fence), Fence);
  }

  /** Where a "```python" marker can start relative to the first "```":
      at it, past its end, or right after one or two extra backticks. */
  lemma PyFenceAfterFence(x: string, j: int, k: int)
    requires OccursAt(x, PyFence, j) && FirstAt(x, Fence, k)
    ensures k <= j
    ensures k == j || k + 3 <= j || Occurs(x, "`" + PyFence)
  {
    PyFenceIsFence(x, j);
    if j == k + 1 || j == k + 2 {
      var i := j - 1;
      assert x[i] == x[k..k + 3][i - k] == '`';
      assert x[i..i + 10] == [x[i]] + x[j..j + 9];
      assert OccursAt(x, "`" + PyFence, i);
    }
  }

  /** An occurrence in a prefix is an occurrence in the whole text. */
  lemma OccursInPrefix(x: string, t: string, j: int, i: int)
    requires 0 <= j <= |x| && OccursAt(x[..j], t, i)
    ensures OccursAt(x, t, i)
  {
    assert x[..j][i..i + |t|] == x[i..i + |t|];
  }

  /** Cutting at the first "```python" before cutting at the first "```"
      changes nothing unless a "```python" marker follows extra backticks. */
  lemma BeforePyThenFence(x: string)
    requires !Occurs(x, "`" + PyFence)
    ensures Before(Before(x, PyFence), Fence) == Before(x, Fence)
  {
    match IndexOf(x, PyFence)
    case None =>
    case Some(j) =>
      PyFenceIsFence(x, j);
      var k := IndexOf(x, Fence).value;
      PyFenceAfterFence(x, j, k);
      var y := x[..j];
      assert Before(x, PyFence) == y;
      forall i | OccursAt(y, Fence, i) ensures k <= i {
        OccursInPrefix(x, Fence, j, i);
      }
      if k == j {
        assert !Occurs(y, Fence);
        assert y == x[..k];
      } else {
        assert y[k..k + 3] == x[k..k + 3];
        assert FirstAt(y, Fence, k);
        assert y[..k] == x[..k];
      }
  }

  /** The python branch as usually described: the text after the first
      "```python" up to the next "```" (or the end), trimmed, provided no
      "```python" there follows extra backticks. */
  lemma ExtractPythonToFence(reply: string)
    requires Occurs(reply, PyFence)
    requires !Occurs(After(reply, PyFence), "`" + PyFence)
    ensures ExtractCode(reply) == Strip(Before(After(reply, PyFence), Fence))
    ensures !Occurs(After(reply, PyFence), Fence) ==> ExtractCode(reply) == Strip(After(reply, PyFence))
  {
    ExtractPython(reply);
    BeforePyThenFence(After(reply, PyFence));
  }

  /** A reply in which a second "```python" follows an extra backtick. */
  const StrayReply: string := "```python````python\nx"

  /** The text of that reply after its first "```python". */
  lemma StrayRest()
    ensures Occurs(StrayReply, PyFence)
    ensures After(StrayReply, PyFence) == "````python\nx"
  {
    assert FirstAt(StrayReply, PyFence, 0) by { assert StrayReply[0..9] == PyFence; }
    assert StrayReply[9..] == "````python\nx";
  }

  /** In that text the first "```python" starts after one backtick. */
  lemma StrayCut()
    ensures Before("````python\nx", PyFence) == "`"
  {
    var rest := "````python\nx";
    assert FirstAt(rest, PyFence, 1) by {
      assert rest[1..10] == PyFence;
      assert rest[0..9][3] != PyFence[3];
    }
  }

  /** A lone backtick is its own strip and holds no fence. */
  lemma LoneBacktick()
    ensures Before("`", Fence) == "`" && Strip("`") == "`"
  {
    assert !Occurs("`", Fence);
    assert StripAt("`", "`", 0);
    StripUnique("`", "`");
  }

  /** On that reply the first `split` cuts before the text reaches a "```",
      so the code is a lone backtick ... */
  lemma ExtractStrayBacktick()
    ensures Occurs(StrayReply, PyFence)
    ensures ExtractCode(StrayReply) == "`"
  {
    StrayRest();
    StrayCut();
    LoneBacktick();
    ExtractPython(StrayReply);
  }

  /** ... where the text up to the next "```" would be empty. */
  lemma StrayUpToFence()
    ensures Occurs(StrayReply, PyFence)
    ensures Strip(Before(After(StrayReply, PyFence), Fence)) == ""
  {
    var rest := "````python\nx";
    StrayRest();
    assert Before(rest, Fence) == [] by {
      assert FirstAt(rest, Fence, 0) by {
        assert rest[0] == '`' && rest[1] == '`' && rest[2] == '`';
        assert rest[0..3] == Fence;
      }
    }
    assert Strip([]) == [] by {
      assert StripAt([], [], 0);
      StripUnique([], []);
    }
  }
}
