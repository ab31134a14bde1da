/**
 * The Python `str` operations the text-to-CAD back end relies on:
 * `isspace`, `strip`, `lower`, the `in` substring test, `split` and `join`.
 * Each is defined the way CPython computes it, and each comes with a
 * declarative description (an occurrence index, a whitespace-padded slice)
 * and the lemmas that connect the two.
 */
module Text {
  import opened Wrappers

  /** Python's `str.isspace()` for one character; the same class is matched
      by `\s` in a `str` regular expression. */
  predicate IsSpace(c: char): (space: bool)
    ensures space ==> c != '`' && !('a' <= c <= 'z') && !('A' <= c <= 'Z') && !('0' <= c <= '9')
  {
    var n := c as int;
    n == 0x20 || 0x09 <= n <= 0x0D || 0x1C <= n <= 0x1F || n == 0x85 || n == 0xA0
    || n == 0x1680 || 0x2000 <= n <= 0x200A || n == 0x2028 || n == 0x2029
    || n == 0x202F || n == 0x205F || n == 0x3000
  }

  // ---------------------------------------------------------------------
  // strip

  /** The first index at or after `i` that does not hold whitespace, or
      `|s|`: the forward scan of CPython's `strip`. */
  function SkipSpace(s: string, i: nat): (j: nat)
    requires i <= |s|
    ensures i <= j <= |s|
    ensures forall k | i <= k < j :: IsSpace(s[k])
    ensures j == |s| || !IsSpace(s[j])
    decreases |s| - i
  {
    if i == |s| || !IsSpace(s[i]) then i else SkipSpace(s, i + 1)
  }

  /** The index after the last non-whitespace character of `s[lo..j]`, or
      `lo`: the backward scan of CPython's `strip`. */
  function SkipSpaceBack(s: string, lo: nat, j: nat): (i: nat)
    requires lo <= j <= |s|
    ensures lo <= i <= j
    ensures forall k | i <= k < j :: IsSpace(s[k])
    ensures i == lo || !IsSpace(s[i - 1])
    decreases j - lo
  {
    if j == lo || !IsSpace(s[j - 1]) then j else SkipSpaceBack(s, lo, j - 1)
  }

  /** `s.lstrip()`: the suffix of `s` left after its leading whitespace. */
  function LStrip(s: string): (r: string)
    ensures |r| <= |s|
    ensures r == [] || !IsSpace(r[0])
  {
    s[SkipSpace(s, 0)..]
  }

  /** `lstrip` removes exactly the leading run of whitespace. */
  lemma LStripPadded(ws: string, b: string)
    requires forall k | 0 <= k < |ws| :: IsSpace(ws[k])
    requires b == [] || !IsSpace(b[0])
    ensures LStrip(ws + b) == b
  {
    var s := ws + b;
    var j := SkipSpace(s, 0);
    if b != [] {
      assert s[|ws|] == b[0];
    }
    forall k | 0 <= k < |ws| ensures IsSpace(s[k]) {
      assert s[k] == ws[k];
    }
    assert j == |ws|;
    assert s[|ws|..] == b;
  }

  /** `r` is the slice of `s` starting at `i` that is padded in `s` by
      whitespace only and neither starts nor ends with whitespace. */
  ghost predicate StripAt(r: string, s: string, i: int) {
    && 0 <= i && i + |r| <= |s| && r == s[i..i + |r|]
    && (r == [] || (!IsSpace(r[0]) && !IsSpace(r[|r| - 1])))
    && (forall k | 0 <= k < i :: IsSpace(s[k]))
    && (forall k | i + |r| <= k < |s| :: IsSpace(s[k]))
  }

  ghost predicate IsStripOf(r: string, s: string) {
    exists i :: StripAt(r, s, i)
  }

  /** `s.strip()`. */
  function Strip(s: string): (r: string)
    ensures r == [] || (!IsSpace(r[0]) && !IsSpace(r[|r| - 1]))
    ensures IsStripOf(r, s)
  {
    var a := SkipSpace(s, 0);
    var b := SkipSpaceBack(s, a, |s|);
    assert StripAt(s[a..b], s, a);
    s[a..b]
  }

  /** Whitespace padding determines the stripped text: `Strip(s)` is the only
      string that `IsStripOf` relates to `s`. */
  lemma StripUnique(r: string, s: string)
    requires IsStripOf(r, s)
    ensures r == Strip(s)
  {
    var i :| StripAt(r, s, i);
    var a := SkipSpace(s, 0);
    var b := SkipSpaceBack(s, a, |s|);
    if r != [] {
      assert !IsSpace(s[i]) by { assert s[i] == r[0]; }
      assert a == i;
      assert !IsSpace(s[i + |r| - 1]) by { assert s[i + |r| - 1] == r[|r| - 1]; }
      assert b == i + |r|;
    } else {
      assert a == |s|;
    }
  }

  /** Stripping twice is stripping once. */
  lemma StripIdempotent(s: string)
    ensures Strip(Strip(s)) == Strip(s)
  {
    var r := Strip(s);
    assert StripAt(r, r, 0);
    StripUnique(r, r);
  }

  lemma PadFront(pre: string, s: string, post: string, i: int)
    requires 0 <= i <= |s|
    requires forall k | 0 <= k < |pre| :: IsSpace(pre[k])
    requires forall k | 0 <= k < i :: IsSpace(s[k])
    ensures forall k | 0 <= k < |pre| + i :: IsSpace((pre + s + post)[k])
  {
    var t := pre + s + post;
    forall k | 0 <= k < |pre| + i ensures IsSpace(t[k]) {
      if k >= |pre| { assert t[k] == s[k - |pre|]; } else { assert t[k] == pre[k]; }
    }
  }

  lemma PadBack(pre: string, s: string, post: string, e: int)
    requires 0 <= e <= |s|
    requires forall k | 0 <= k < |post| :: IsSpace(post[k])
    requires forall k | e <= k < |s| :: IsSpace(s[k])
    ensures forall k | |pre| + e <= k < |pre| + |s| + |post| :: IsSpace((pre + s + post)[k])
  {
    var t := pre + s + post;
    forall k | |pre| + e <= k < |t| ensures IsSpace(t[k]) {
      if k < |pre| + |s| { assert t[k] == s[k - |pre|]; } else { assert t[k] == post[k - |pre| - |s|]; }
    }
  }

  /** Whitespace added at either end of a string does not change its strip. */
  lemma StripPadded(pre: string, s: string, post: string)
    requires forall k | 0 <= k < |pre| :: IsSpace(pre[k])
    requires forall k | 0 <= k < |post| :: IsSpace(post[k])
    ensures Strip(pre + s + post) == Strip(s)
  {
    var r := Strip(s);
    var i :| StripAt(r, s, i);
    var t := pre + s + post;
    var j := |pre| + i;
    assert StripAt(r, t, j) by {
      assert t[j..j + |r|] == s[i..i + |r|];
      PadFront(pre, s, post, i);
      PadBack(pre, s, post, i + |r|);
    }
    StripUnique(r, t);
  }

  /** `strip` keeps a slice, so it cannot create an occurrence. */
  lemma StripAvoids(s: string, f: string)
    requires !Occurs(s, f)
    ensures !Occurs(Strip(s), f)
  {
    var r := Strip(s);
    var i :| StripAt(r, s, i);
    OccursInSlice(s, f, i, i + |r|);
  }

  // ---------------------------------------------------------------------
  // lower

  /** ASCII lower-casing of one character. */
  function LowerChar(c: char): char {
    if 'A' <= c <= 'Z' then (c as int + 32) as char else c
  }

  /** `s.lower()` restricted to ASCII letters. */
  function Lower(s: string): (r: string)
    ensures |r| == |s|
    ensures forall k | 0 <= k < |s| :: r[k] == LowerChar(s[k])
  {
    if s == [] then [] else [LowerChar(s[0])] + Lower(s[1..])
  }

  // ---------------------------------------------------------------------
  // substring search

  /** `t` occurs in `s` at index `i`. */
  ghost predicate OccursAt(s: string, t: string, i: int) {
    0 <= i && i + |t| <= |s| && s[i..i + |t|] == t
  }

  /** `t` occurs somewhere in `s`: Python's `t in s`. */
  ghost predicate Occurs(s: string, t: string) {
    exists i :: OccursAt(s, t, i)
  }

  /** `i` is the first index at which `t` occurs in `s`. */
  ghost predicate FirstAt(s: string, t: string, i: int) {
    OccursAt(s, t, i) && forall j | 0 <= j < i :: !OccursAt(s, t, j)
  }

  lemma OccursShift(s: string, t: string)
    requires |s| > 0
    ensures forall k: nat :: OccursAt(s[1..], t, k) <==> OccursAt(s, t, k + 1)
    ensures forall j | 1 <= j :: OccursAt(s, t, j) <==> OccursAt(s[1..], t, j - 1)
  {
    forall k: nat ensures OccursAt(s[1..], t, k) <==> OccursAt(s, t, k + 1) {
      if k + 1 + |t| <= |s| {
        assert s[1..][k..k + |t|] == s[k + 1..k + 1 + |t|];
      }
    }
  }

  /** The left-to-right scan CPython's `str.find` performs. */
  function IndexOf(s: string, t: string): (r: Option<nat>)
    ensures r.Some? ==> FirstAt(s, t, r.value)
    ensures r.None? ==> !Occurs(s, t)
    decreases |s|
  {
    if |s| < |t| then None
    else if t <= s then (assert s[0..|t|] == t; Some(0))
    else
      OccursShift(s, t);
      assert !OccursAt(s, t, 0);
      match IndexOf(s[1..], t)
      case Some(k) => Some(k + 1)
      case None => None
  }

  lemma FirstAtUnique(s: string, t: string, i: int, j: int)
    requires FirstAt(s, t, i) && FirstAt(s, t, j)
    ensures i == j
  {
  }

  lemma IndexOfIs(s: string, t: string, k: int)
    requires FirstAt(s, t, k)
    ensures IndexOf(s, t) == Some(k)
  {
    match IndexOf(s, t)
    case Some(j) => FirstAtUnique(s, t, j, k);
    case None =>
  }

  /** Python's `t in s`. */
  function Contains(s: string, t: string): (b: bool)
    ensures b <==> Occurs(s, t)
  {
    IndexOf(s, t).Some?
  }

  /** An occurrence inside a slice is an occurrence in the whole. */
  lemma OccursInSlice(s: string, t: string, a: int, b: int)
    requires 0 <= a <= b <= |s|
    ensures Occurs(s[a..b], t) ==> Occurs(s, t)
  {
    if Occurs(s[a..b], t) {
      var i :| OccursAt(s[a..b], t, i);
      forall m | 0 <= m < |t| ensures s[a + i..a + i + |t|][m] == t[m] {
        assert t[m] == s[a..b][i..i + |t|][m] == s[a + i + m];
      }
      assert s[a + i..a + i + |t|] == t;
      assert OccursAt(s, t, a + i);
    }
  }

  /** A one-character needle occurs exactly where that character stands. */
  lemma OccursChar(s: string, d: char)
    ensures forall i :: OccursAt(s, [d], i) <==> 0 <= i < |s| && s[i] == d
    ensures Occurs(s, [d]) <==> d in s
  {
    forall i | 0 <= i < |s| ensures s[i..i + 1] == [s[i]] { }
    if d in s {
      var i :| 0 <= i < |s| && s[i] == d;
      assert OccursAt(s, [d], i);
    }
  }

  /** The text before the first occurrence of `sep`, or all of `s`. */
  function Before(s: string, sep: string): (r: string)
    ensures !Occurs(s, sep) ==> r == s
    ensures forall j | FirstAt(s, sep, j) :: r == s[..j]
  {
    match IndexOf(s, sep)
    case None => s
    case Some(k) => (forall j | FirstAt(s, sep, j) ensures j == k { FirstAtUnique(s, sep, j, k); } s[..k])
  }

  /** The text after the first occurrence of `sep`. */
  function After(s: string, sep: string): (r: string)
    requires Occurs(s, sep)
    ensures forall j | FirstAt(s, sep, j) :: r == s[j + |sep|..]
  {
    var k := IndexOf(s, sep).value;
    assert forall j | FirstAt(s, sep, j) :: j == k by {
      forall j | FirstAt(s, sep, j) ensures j == k { FirstAtUnique(s, sep, j, k); }
    }
    s[k + |sep|..]
  }

  /** `Before` never returns text containing `sep`. */
  lemma BeforeAvoids(s: string, sep: string)
    requires |sep| > 0
    ensures !Occurs(Before(s, sep), sep)
  {
    match IndexOf(s, sep)
    case None =>
    case Some(k) =>
      if Occurs(s[..k], sep) {
        var i :| OccursAt(s[..k], sep, i);
        assert s[..k][i..i + |sep|] == s[i..i + |sep|];
        assert OccursAt(s, sep, i);
      }
  }

  // ---------------------------------------------------------------------
  // split and join

  /** `s.split(sep)`: the pieces between the non-overlapping occurrences of
      `sep`, found left to right. */
  function Split(s: string, sep: string): (r: seq<string>)
    requires |sep| > 0
    ensures |r| >= 1
    decreases |s|
  {
    match IndexOf(s, sep)
    case None => [s]
    case Some(k) => [s[..k]] + Split(s[k + |sep|..], sep)
  }

  /** `sep.join(parts)`. */
  function Join(parts: seq<string>, sep: string): (r: string)
    ensures |parts| > 0 ==> parts[0] <= r
    ensures |parts| > 0 ==> var last := parts[|parts| - 1]; |last| <= |r| && r[|r| - |last|..] == last
  {
    if |parts| == 0 then []
    else if |parts| == 1 then parts[0]
    else parts[0] + sep + Join(parts[1..], sep)
  }

  lemma SplitAt(s: string, sep: string, k: int)
    requires |sep| > 0 && FirstAt(s, sep, k)
    ensures Split(s, sep) == [s[..k]] + Split(s[k + |sep|..], sep)
  {
    IndexOfIs(s, sep, k);
  }

  lemma SplitWhole(s: string, sep: string)
    requires |sep| > 0 && !Occurs(s, sep)
    ensures Split(s, sep) == [s]
  {
  }

  lemma SplitAround(s: string, sep: string, k: int)
    requires OccursAt(s, sep, k)
    ensures s == s[..k] + sep + s[k + |sep|..]
  {
    assert s == s[..k] + s[k..k + |sep|] + s[k + |sep|..];
  }

  lemma JoinCons(x: string, parts: seq<string>, sep: string)
    requires |parts| >= 1
    ensures Join([x] + parts, sep) == x + sep + Join(parts, sep)
  {
    assert ([x] + parts)[1..] == parts;
  }

  /** The first occurrence of a one-character needle, character by character. */
  lemma FirstAtChar(s: string, d: char, k: int)
    ensures FirstAt(s, [d], k) <==> 0 <= k < |s| && s[k] == d && forall j | 0 <= j < k :: s[j] != d
  {
    OccursChar(s, d);
  }

  /** `s.split(sep)[0]` and `s.split(sep)[1]` in terms of the first
      occurrence of `sep`. */
  lemma SplitFirstPieces(s: string, sep: string)
    requires |sep| > 0
    ensures Split(s, sep)[0] == Before(s, sep)
    ensures Occurs(s, sep) ==> Split(s, sep)[1] == Before(After(s, sep), sep)
  {
    match IndexOf(s, sep)
    case None =>
    case Some(k) =>
      var rest := s[k + |sep|..];
      SplitAt(s, sep, k);
      assert After(s, sep) == rest;
      SplitFirstPieces(rest, sep);
  }

  /** Joining the pieces of a split with the same separator gives back the
      original text. */
  lemma {:induction false} JoinSplit(s: string, sep: string)
    requires |sep| > 0
    ensures Join(Split(s, sep), sep) == s
    decreases |s|
  {
    match IndexOf(s, sep)
    case None =>
    case Some(k) =>
      var head, rest := s[..k], s[k + |sep|..];
      var pieces := Split(rest, sep);
      JoinSplit(rest, sep);
      calc {
        Join(Split(s, sep), sep);
        { SplitAt(s, sep, k); }
        Join([head] + pieces, sep);
        { JoinCons(head, pieces, sep); }
        head + sep + Join(pieces, sep);
        head + sep + rest;
        { SplitAround(s, sep, k); }
        s;
      }
  }

  /** No piece of a split contains the separator. */
  lemma {:induction false} SplitPiecesAvoidSep(s: string, sep: string)
    requires |sep| > 0
    ensures forall p | p in Split(s, sep) :: !Occurs(p, sep)
    decreases |s|
  {
    match IndexOf(s, sep)
    case None =>
    case Some(k) =>
      var rest := s[k + |sep|..];
      SplitPiecesAvoidSep(rest, sep);
      BeforeAvoids(s, sep);
      assert Before(s, sep) == s[..k];
      SplitAt(s, sep, k);
  }

  /** Every piece of a split is a slice of the text, so a needle absent from
      the text is absent from each piece. */
  lemma {:induction false} SplitPiecesAvoid(s: string, sep: string, f: string)
    requires |sep| > 0
    requires !Occurs(s, f)
    ensures forall p | p in Split(s, sep) :: !Occurs(p, f)
    decreases |s|
  {
    match IndexOf(s, sep)
    case None =>
    case Some(k) =>
      var rest := s[k + |sep|..];
      OccursInSlice(s, f, 0, k);
      assert s[0..k] == s[..k];
      OccursInSlice(s, f, k + |sep|, |s|);
      assert s[k + |sep|..|s|] == rest;
      SplitPiecesAvoid(rest, sep, f);
      SplitAt(s, sep, k);
  }

  /** The first occurrence of a separator character that does occur. */
  lemma FirstChar(t: string, d: char) returns (k: nat)
    requires d in t
    ensures k < |t| && t[k] == d && forall j | 0 <= j < k :: t[j] != d
  {
    OccursChar(t, d);
    k := IndexOf(t, [d]).value;
    FirstAtChar(t, d, k);
  }

  /** Splitting at the first separator character. */
  lemma SplitCharAt(s: string, d: char, k: int)
    requires 0 <= k < |s| && s[k] == d && forall j | 0 <= j < k :: s[j] != d
    ensures Split(s, [d]) == [s[..k]] + Split(s[k + 1..], [d])
  {
    FirstAtChar(s, d, k);
    SplitAt(s, [d], k);
  }

  /** A text without the separator character is a single piece. */
  lemma SplitCharNone(s: string, d: char)
    requires d !in s
    ensures Split(s, [d]) == [s]
  {
    OccursChar(s, d);
    SplitWhole(s, [d]);
  }

  /** Splitting with a one-character separator a text that starts with the
      separator: an empty first piece. */
  lemma SplitConsSep(d: char, t: string)
    ensures Split([d] + t, [d]) == [[]] + Split(t, [d])
  {
    var s := [d] + t;
    SplitCharAt(s, d, 0);
    assert s[1..] == t;
  }

  /** ... that starts with any other character: the character joins the
      first piece. */
  lemma SplitConsOther(c: char, d: char, t: string)
    requires c != d
    ensures var p := Split(t, [d]); Split([c] + t, [d]) == [[c] + p[0]] + p[1..]
  {
    var s := [c] + t;
    if d !in t {
      SplitCharNone(t, d);
      assert d !in s;
      SplitCharNone(s, d);
    } else {
      var k := FirstChar(t, d);
      SplitCharAt(t, d, k);
      assert Split(s, [d]) == [s[..k + 1]] + Split(s[k + 2..], [d]) by {
        assert forall j | 0 <= j < k + 1 :: s[j] != d by {
          assert forall j | 1 <= j < k + 1 :: s[j] == t[j - 1];
        }
        SplitCharAt(s, d, k + 1);
      }
      assert s[..k + 1] == [c] + t[..k];
      assert s[k + 2..] == t[k + 1..];
    }
  }

  /** Splitting a text that ends with the separator: an empty last piece. */
  lemma {:induction false} SplitSnocSep(t: string, d: char)
    ensures Split(t + [d], [d]) == Split(t, [d]) + [[]]
    decreases |t|
  {
    var s := t + [d];
    if d !in t {
      SplitCharNone(t, d);
      assert Split(s, [d]) == [s[..|t|]] + Split(s[|t| + 1..], [d]) by {
        SplitCharAt(s, d, |t|);
      }
      assert s[..|t|] == t;
      assert s[|t| + 1..] == [];
      SplitCharNone([], d);
    } else {
      var k := FirstChar(t, d);
      var head, tail := t[..k], t[k + 1..];
      assert s[..k] == head;
      assert s[k + 1..] == tail + [d];
      calc {
        Split(s, [d]);
        { SplitCharAt(s, d, k); }
        [head] + Split(tail + [d], [d]);
        { SplitSnocSep(tail, d); }
        [head] + (Split(tail, [d]) + [[]]);
        ([head] + Split(tail, [d])) + [[]];
        { SplitCharAt(t, d, k); }
        Split(t, [d]) + [[]];
      }
    }
  }

  /** A text without the separator, with one more character that is not
      the separator: still one piece. */
  lemma SplitSnocNone(t: string, c: char, d: char)
    requires c != d && d !in t
    ensures Split(t + [c], [d]) == [t + [c]] && Split(t, [d]) == [t]
  {
    SplitCharNone(t, d);
    assert d !in t + [c];
    SplitCharNone(t + [c], d);
  }

  /** One step of `SplitSnocOther`: from the text after the first separator
      to the whole text. */
  lemma SplitSnocStep(t: string, c: char, d: char, k: int)
    requires 0 <= k < |t| && t[k] == d && forall j | 0 <= j < k :: t[j] != d
    requires var q := Split(t[k + 1..], [d]);
      Split(t[k + 1..] + [c], [d]) == q[..|q| - 1] + [q[|q| - 1] + [c]]
    ensures var p := Split(t, [d]); Split(t + [c], [d]) == p[..|p| - 1] + [p[|p| - 1] + [c]]
  {
    var s := t + [c];
    var head, tail := t[..k], t[k + 1..];
    var q := Split(tail, [d]);
    var p := Split(t, [d]);
    assert p == [head] + q by { SplitCharAt(t, d, k); }
    assert Split(s, [d]) == [head] + Split(tail + [c], [d]) by {
      SplitCharAt(s, d, k);
      assert s[..k] == head;
      assert s[k + 1..] == tail + [c];
    }
    assert p[..|p| - 1] == [head] + q[..|q| - 1];
    assert p[|p| - 1] == q[|q| - 1];
  }

  /** Splitting a text that ends with another character: the character
      joins the last piece. */
  lemma {:induction false} SplitSnocOther(t: string, c: char, d: char)
    requires c != d
    ensures var p := Split(t, [d]); Split(t + [c], [d]) == p[..|p| - 1] + [p[|p| - 1] + [c]]
    decreases |t|
  {
    if d !in t {
      SplitSnocNone(t, c, d);
    } else {
      var k := FirstChar(t, d);
      SplitSnocOther(t[k + 1..], c, d);
      SplitSnocStep(t, c, d, k);
    }
  }

  lemma LastPiece(p: seq<string>, q: seq<string>, b: string, c: char)
    requires |p| >= 1 && q == p[..|p| - 1] + [p[|p| - 1] + b]
    ensures q[..|q| - 1] + [q[|q| - 1] + [c]] == p[..|p| - 1] + [p[|p| - 1] + (b + [c])]
  {
    assert |q| == |p|;
    assert q[..|q| - 1] == p[..|p| - 1];
    assert q[|q| - 1] == p[|p| - 1] + b;
    assert q[|q| - 1] + [c] == p[|p| - 1] + (b + [c]);
  }

  /** Appending separator-free text only extends the last piece. */
  lemma {:induction false} SplitAppendFree(a: string, b: string, d: char)
    requires d !in b
    ensures var p := Split(a, [d]); Split(a + b, [d]) == p[..|p| - 1] + [p[|p| - 1] + b]
    decreases |b|
  {
    var p := Split(a, [d]);
    if b == [] {
      assert a + b == a;
      assert p == p[..|p| - 1] + [p[|p| - 1]];
      assert p[|p| - 1] + b == p[|p| - 1];
    } else {
      var b', c := b[..|b| - 1], b[|b| - 1];
      var q := Split(a + b', [d]);
      assert q == p[..|p| - 1] + [p[|p| - 1] + b'] by { SplitAppendFree(a, b', d); }
      assert b' + [c] == b;
      assert Split(a + b, [d]) == q[..|q| - 1] + [q[|q| - 1] + [c]] by {
        assert a + b == (a + b') + [c];
        SplitSnocOther(a + b', c, d);
      }
      LastPiece(p, q, b', c);
    }
  }

  /** A separator followed by text free of it adds exactly one last piece. */
  lemma SplitSepThenFree(a: string, b: string, d: char)
    ensures d !in b ==> Split(a + [d] + b, [d]) == Split(a, [d]) + [b]
  {
    if d !in b {
      var p := Split(a + [d], [d]);
      assert p == Split(a, [d]) + [[]] by { SplitSnocSep(a, d); }
      assert Split((a + [d]) + b, [d]) == p[..|p| - 1] + [p[|p| - 1] + b] by {
        SplitAppendFree(a + [d], b, d);
      }
      assert p[..|p| - 1] == Split(a, [d]);
      assert p[|p| - 1] + b == b;
    }
  }


  /** A separator-free head followed by the separator is split off as the
      first piece. */
  lemma SplitFreeThenSep(p0: string, d: char, rest: string)
    ensures d !in p0 ==> Split(p0 + [d] + rest, [d]) == [p0] + Split(rest, [d])
  {
    if d !in p0 {
      var s := p0 + [d] + rest;
      FirstAtChar(s, d, |p0|);
      SplitAt(s, [d], |p0|);
      assert s[..|p0|] == p0;
      assert s[|p0| + 1..] == rest;
    }
  }

  /** A separator-free list joined with a one-character separator splits
      back into the same list. */
  lemma {:induction false} SplitJoin(parts: seq<string>, d: char)
    requires |parts| > 0
    requires forall p | p in parts :: d !in p
    ensures Split(Join(parts, [d]), [d]) == parts
    decreases |parts|
  {
    var p0 := parts[0];
    if |parts| == 1 {
      OccursChar(p0, d);
      SplitWhole(p0, [d]);
    } else {
      var tail := parts[1..];
      assert parts == [p0] + tail;
      assert Join(parts, [d]) == p0 + [d] + Join(tail, [d]) by { JoinCons(p0, tail, [d]); }
      assert Split(Join(parts, [d]), [d]) == [p0] + Split(Join(tail, [d]), [d]) by {
        SplitFreeThenSep(p0, d, Join(tail, [d]));
      }
      SplitJoin(tail, d);
    }
  }

  /** An occurrence in `a + [d] + b` lies within `a`, within `b`, or
      covers the middle `d`. */
  lemma ConcatOccurs(a: string, d: char, b: string, f: string, i: int)
    requires OccursAt(a + [d] + b, f, i)
    ensures OccursAt(a, f, i) || OccursAt(b, f, i - |a| - 1) || d in f
  {
    var s := a + [d] + b;
    if i + |f| <= |a| {
      assert s[i..i + |f|] == a[i..i + |f|];
    } else if i > |a| {
      var j := i - |a| - 1;
      assert s[i..i + |f|] == b[j..j + |f|];
    } else {
      assert f[|a| - i] == s[|a|] == d;
    }
  }

  lemma ConcatAvoids(a: string, d: char, b: string, f: string)
    requires d !in f && !Occurs(a, f) && !Occurs(b, f)
    ensures !Occurs(a + [d] + b, f)
  {
    forall i ensures !OccursAt(a + [d] + b, f, i) {
      if OccursAt(a + [d] + b, f, i) {
        ConcatOccurs(a, d, b, f, i);
      }
    }
  }

  /** Joining with a one-character separator that the needle does not
      contain cannot create an occurrence of the needle. */
  lemma {:induction false} JoinAvoids(parts: seq<string>, d: char, f: string)
    requires d !in f && |f| > 0
    requires forall p | p in parts :: !Occurs(p, f)
    ensures !Occurs(Join(parts, [d]), f)
    decreases |parts|
  {
    if |parts| == 1 {
      assert parts[0] in parts;
    } else if |parts| > 1 {
      var tail := parts[1..];
      assert parts == [parts[0]] + tail;
      assert parts[0] in parts;
      JoinCons(parts[0], tail, [d]);
      JoinAvoids(tail, d, f);
      ConcatAvoids(parts[0], d, Join(tail, [d]), f);
    }
  }

  // ---------------------------------------------------------------------
  // Lines of a text, compared after stripping

  /** Every `d`-separated line of `a` has, once stripped, the same text as
      some line of `b`. */
  ghost predicate LinesCovered(a: string, b: string, d: char) {
    forall l | l in Split(a, [d]) :: exists m | m in Split(b, [d]) :: Strip(l) == Strip(m)
  }

  lemma CoveredTransitive(a: string, b: string, c: string, d: char)
    requires LinesCovered(a, b, d) && LinesCovered(b, c, d)
    ensures LinesCovered(a, c, d)
  {
    forall l | l in Split(a, [d]) ensures exists m | m in Split(c, [d]) :: Strip(l) == Strip(m) {
      var m1 :| m1 in Split(b, [d]) && Strip(l) == Strip(m1);
      var m2 :| m2 in Split(c, [d]) && Strip(m1) == Strip(m2);
    }
  }

  lemma CoveredByConsSpace(c: char, t: string, d: char)
    requires IsSpace(c)
    ensures LinesCovered(t, [c] + t, d)
  {
    var p := Split(t, [d]);
    if c == d {
      SplitConsSep(d, t);
      forall l | l in p ensures exists m | m in Split([c] + t, [d]) :: Strip(l) == Strip(m) {
        assert l in Split([c] + t, [d]);
      }
    } else {
      SplitConsOther(c, d, t);
      var q := Split([c] + t, [d]);
      forall l | l in p ensures exists m | m in q :: Strip(l) == Strip(m) {
        if l in p[1..] {
          assert l in q;
        } else {
          assert l == p[0];
          StripPadded([c], l, []);
          assert [c] + l + [] == [c] + l;
          assert ([c] + l) in q;
        }
      }
    }
  }

  lemma StripSnocSpace(l: string, c: char)
    requires IsSpace(c)
    ensures Strip(l + [c]) == Strip(l)
  {
    StripPadded([], l, [c]);
    assert [] + l + [c] == l + [c];
  }

  lemma LastLinePadded(p: seq<string>, q: seq<string>, c: char)
    requires IsSpace(c) && |p| >= 1 && q == p[..|p| - 1] + [p[|p| - 1] + [c]]
    ensures forall l | l in p :: exists m | m in q :: Strip(l) == Strip(m)
  {
    var n := |p|;
    forall l | l in p ensures exists m | m in q :: Strip(l) == Strip(m) {
      var j :| 0 <= j < n && p[j] == l;
      var m := q[j];
      assert m in q;
      if j < n - 1 {
        assert m == l;
      } else {
        assert m == l + [c];
        StripSnocSpace(l, c);
      }
      assert Strip(l) == Strip(m);
    }
  }

  lemma CoveredBySnocSpace(t: string, c: char, d: char)
    requires IsSpace(c)
    ensures LinesCovered(t, t + [c], d)
  {
    var p := Split(t, [d]);
    if c == d {
      SplitSnocSep(t, d);
      forall l | l in p ensures exists m | m in Split(t + [c], [d]) :: Strip(l) == Strip(m) {
        assert l in Split(t + [c], [d]);
      }
    } else {
      SplitSnocOther(t, c, d);
      LastLinePadded(p, Split(t + [c], [d]), c);
    }
  }

  /** Whitespace added around a text only adds whitespace to its first and
      last lines. */
  lemma {:induction false} CoveredByPadding(pre: string, s: string, post: string, d: char)
    requires forall k | 0 <= k < |pre| :: IsSpace(pre[k])
    requires forall k | 0 <= k < |post| :: IsSpace(post[k])
    ensures LinesCovered(s, pre + s + post, d)
    decreases |pre| + |post|
  {
    if |post| > 0 {
      var post' := post[..|post| - 1];
      var c := post[|post| - 1];
      CoveredByPadding(pre, s, post', d);
      CoveredBySnocSpace(pre + s + post', c, d);
      assert pre + s + post' + [c] == pre + s + post;
      CoveredTransitive(s, pre + s + post', pre + s + post, d);
    } else if |pre| > 0 {
      var pre' := pre[1..];
      CoveredByPadding(pre', s, post, d);
      CoveredByConsSpace(pre[0], pre' + s + post, d);
      assert [pre[0]] + (pre' + s + post) == pre + s + post;
      CoveredTransitive(s, pre' + s + post, pre + s + post, d);
    } else {
      assert pre + s + post == s;
      forall l | l in Split(s, [d]) ensures exists m | m in Split(s, [d]) :: Strip(l) == Strip(m) {
        assert Strip(l) == Strip(l);
      }
    }
  }

  /** Each line of a stripped text, once stripped, equals some stripped line
      of the original. */
  lemma StripLinesCovered(s: string, d: char)
    ensures LinesCovered(Strip(s), s, d)
  {
    var r := Strip(s);
    var i :| StripAt(r, s, i);
    var pre, post := s[..i], s[i + |r|..];
    assert s == pre + r + post;
    forall k | 0 <= k < |pre| ensures IsSpace(pre[k]) {
      assert pre[k] == s[k];
    }
    forall k | 0 <= k < |post| ensures IsSpace(post[k]) {
      assert post[k] == s[i + |r| + k];
    }
    CoveredByPadding(pre, r, post, d);
  }
}
