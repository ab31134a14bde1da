/**
 * The two markdown fence markers both revisions of the back end look for,
 * and how they relate.
 */
module Markdown {
  import opened Text

  /** A markdown fence marker. */
  const Fence: string := "```"

  /** The marker that opens a fenced Python block. */
  const PyFence: string := "```python"

  /** A "```python" marker starts with a plain fence marker. */
  lemma PyFenceIsFence(s: string, j: int)
    requires OccursAt(s, PyFence, j)
    ensures OccursAt(s, Fence, j)
  {
    assert s[j..j + 3] == s[j..j + 9][..3];
  }

  lemma PyFenceImpliesFence(s: string)
    ensures Occurs(s, PyFence) ==> Occurs(s, Fence)
  {
    if Occurs(s, PyFence) {
      var j :| OccursAt(s, PyFence, j);
      PyFenceIsFence(s, j);
    }
  }

  /** A text that starts with "```python" starts with "```". */
  lemma PyFenceStartsWithFence(s: string)
    ensures PyFence <= s ==> Fence <= s
  {
    if PyFence <= s {
      assert s[..3] == PyFence[..3];
    }
  }
}
