/**
 * The forbidden-substring gate of the second revision (`is_safe_code`):
 * code is refused when any of eight fixed strings occurs in it.
 */
module SafetyGate {
  import opened Text

  /** The denylist, in the order the source lists it. */
  const Forbidden: seq<string> :=
    ["os.", "sys.", "subprocess", "eval(", "open(", "requests.", "socket", "__import__"]

  /** `any(item in code for item in items)`. */
  function AnyOccurs(items: seq<string>, code: string): (found: bool)
    ensures found <==> exists i | 0 <= i < |items| :: Occurs(code, items[i])
  {
    if |items| == 0 then false
    else
      var rest := AnyOccurs(items[1..], code);
      assert forall i | 1 <= i < |items| :: items[i] == items[1..][i - 1];
      assert rest ==> exists i | 0 <= i < |items| :: Occurs(code, items[i]) by {
        if rest {
          var j :| 0 <= j < |items| - 1 && Occurs(code, items[1..][j]);
          assert items[1..][j] == items[j + 1];
        }
      }
      Contains(code, items[0]) || rest
  }

  /** `is_safe_code`: none of the forbidden strings occurs in the code. */
  function IsSafeCode(code: string): (safe: bool)
    ensures safe <==> forall i | 0 <= i < |Forbidden| :: !Occurs(code, Forbidden[i])
  {
    !AnyOccurs(Forbidden, code)
  }

  /** Text added before or after unsafe code leaves it unsafe. */
  lemma UnsafeStaysUnsafe(code: string, before: string, after: string)
    requires !IsSafeCode(code)
    ensures !IsSafeCode(before + code + after)
  {
    var i :| 0 <= i < |Forbidden| && Occurs(code, Forbidden[i]);
    var s := before + code + after;
    assert s[|before|..|before| + |code|] == code;
    OccursInSlice(s, Forbidden[i], |before|, |before| + |code|);
  }

  /** Text cut out of safe code is safe. */
  lemma SafeSliceIsSafe(code: string, a: int, b: int)
    requires 0 <= a <= b <= |code| && IsSafeCode(code)
    ensures IsSafeCode(code[a..b])
  {
    forall i | 0 <= i < |Forbidden| ensures !Occurs(code[a..b], Forbidden[i]) {
      OccursInSlice(code, Forbidden[i], a, b);
    }
  }

  /** Every character of an occurring needle is a character of the text. */
  lemma OccursHasChar(s: string, f: string, k: int)
    requires 0 <= k < |f|
    ensures Occurs(s, f) ==> f[k] in s
  {
    if Occurs(s, f) {
      var i :| OccursAt(s, f, i);
      assert s[i..i + |f|][k] == s[i + k];
    }
  }

  /** The denylist names no way to execute code: a call of `exec` passes
      the gate. */
  lemma ExecPassesGate()
    ensures IsSafeCode("exec(x)")
  {
    var s := "exec(x)";
    OccursHasChar(s, Forbidden[0], 0);
    OccursHasChar(s, Forbidden[1], 0);
    OccursHasChar(s, Forbidden[2], 0);
    OccursHasChar(s, Forbidden[3], 1);
    OccursHasChar(s, Forbidden[4], 0);
    OccursHasChar(s, Forbidden[5], 0);
    OccursHasChar(s, Forbidden[6], 0);
    OccursHasChar(s, Forbidden[7], 0);
  }

  /** A typical escape is caught. */
  lemma ImportOsIsUnsafe()
    ensures !IsSafeCode("import os.path")
  {
    var s := "import os.path";
    assert s[7..10] == Forbidden[0];
    assert OccursAt(s, Forbidden[0], 7);
  }
}
