/**
 * The download-ID checks of both revisions (`get_step`) and the STEP file
 * path built from an accepted ID with POSIX `os.path.join`.
 */
module StepIds {
  import opened Text

  /** The path separator. */
  const Slash: char := '/'

  /** The suffix of every STEP file name. */
  const StepSuffix: string := ".step"

  // ---------------------------------------------------------------------
  // Paths

  /** POSIX `os.path.join(dir, name)` for two components. An absolute
      name replaces the directory; otherwise the path starts with the
      directory and ends with the name, with at most one '/' between them.
      So under a non-empty directory that does not end with '/', a name
      without '/' becomes exactly one more path component. */
  function PathJoin(dir: string, name: string): (path: string)
    ensures name != [] && name[0] == Slash ==> path == name
    ensures name == [] || name[0] != Slash ==>
      dir <= path && |name| <= |path| <= |dir| + 1 + |name| && path[|path| - |name|..] == name
    ensures Slash !in name && dir != [] && dir[|dir| - 1] != Slash ==>
      Split(path, [Slash]) == Split(dir, [Slash]) + [name]
  {
    if |name| > 0 && name[0] == Slash then name
    else if |dir| == 0 || dir[|dir| - 1] == Slash then dir + name
    else
      SplitSepThenFree(dir, name, Slash);
      dir + [Slash] + name
  }

  /** The file name of an ID: at least the five characters of the suffix,
      and without '/' when the ID has none. */
  lemma StepName(fileId: string)
    ensures var name := fileId + StepSuffix;
      |name| >= 5 && (Slash !in fileId ==> Slash !in name && name[0] != Slash)
  {
    var name := fileId + StepSuffix;
    if Slash !in fileId {
      forall k | 0 <= k < |name| ensures name[k] != Slash {
        if k >= |fileId| {
          assert name[k] == StepSuffix[k - |fileId|];
        } else {
          assert name[k] == fileId[k];
        }
      }
    }
  }

  /** `os.path.join(STEP_DIR, f"{file_id}.step")`. Under a directory that
      is not empty and does not end with '/', the path of an ID without '/'
      has the directory's components followed by one more, the file name,
      which is never "." or "..": the file lies directly in the STEP
      directory. */
  function StepPath(stepDir: string, fileId: string): (path: string)
    ensures Slash !in fileId && stepDir != [] && stepDir[|stepDir| - 1] != Slash ==>
      Split(path, [Slash]) == Split(stepDir, [Slash]) + [fileId + StepSuffix]
      && fileId + StepSuffix != "." && fileId + StepSuffix != ".."
  {
    StepName(fileId);
    PathJoin(stepDir, fileId + StepSuffix)
  }

  // ---------------------------------------------------------------------
  // First revision: `file_id.replace('-', '').isalnum()`

  /** ASCII letters and digits. */
  predicate IsAsciiAlnum(c: char) {
    'a' <= c <= 'z' || 'A' <= c <= 'Z' || '0' <= c <= '9'
  }

  /** `str.isalnum()` over ASCII: not empty and letters or digits only. */
  predicate IsAlnum(s: string) {
    |s| > 0 && forall k | 0 <= k < |s| :: IsAsciiAlnum(s[k])
  }

  /** `s.replace(c, '')`. */
  function RemoveAll(s: string, c: char): (r: string)
    ensures |r| <= |s|
    ensures forall x :: x in r <==> x in s && x != c
  {
    if |s| == 0 then []
    else (if s[0] == c then [] else [s[0]]) + RemoveAll(s[1..], c)
  }

  /** The check of the first revision. It accepts exactly the IDs made of
      ASCII letters, digits and '-' that hold at least one letter or digit. */
  predicate IdCheck1(fileId: string): (ok: bool)
    ensures ok <==>
      (forall k | 0 <= k < |fileId| :: fileId[k] == '-' || IsAsciiAlnum(fileId[k]))
      && (exists k | 0 <= k < |fileId| :: fileId[k] != '-')
  {
    DashesRemovedAlnum(fileId);
    IsAlnum(RemoveAll(fileId, '-'))
  }

  lemma DashesRemovedAlnum(fileId: string)
    ensures IsAlnum(RemoveAll(fileId, '-')) <==>
      (forall k | 0 <= k < |fileId| :: fileId[k] == '-' || IsAsciiAlnum(fileId[k]))
      && (exists k | 0 <= k < |fileId| :: fileId[k] != '-')
  {
    var r := RemoveAll(fileId, '-');
    if IsAlnum(r) {
      forall k | 0 <= k < |fileId| ensures fileId[k] == '-' || IsAsciiAlnum(fileId[k]) {
        if fileId[k] != '-' {
          assert fileId[k] in r;
        }
      }
      assert r[0] in fileId;
    }
    if (forall k | 0 <= k < |fileId| :: fileId[k] == '-' || IsAsciiAlnum(fileId[k]))
      && (exists k | 0 <= k < |fileId| :: fileId[k] != '-')
    {
      var k :| 0 <= k < |fileId| && fileId[k] != '-';
      assert fileId[k] in r;
      forall j | 0 <= j < |r| ensures IsAsciiAlnum(r[j]) {
        assert r[j] in fileId;
      }
    }
  }

  /** The empty ID and IDs made only of '-' are refused. */
  lemma IdCheck1RefusesDashes(fileId: string)
    requires forall k | 0 <= k < |fileId| :: fileId[k] == '-'
    ensures !IdCheck1(fileId)
  {
  }

  /** An accepted ID holds no path separator and no dot. */
  lemma IdCheck1Safe(fileId: string)
    requires IdCheck1(fileId)
    ensures Slash !in fileId && '\\' !in fileId && '.' !in fileId
  {
  }

  // ---------------------------------------------------------------------
  // Second revision: `re.match(r'^[a-f0-9\-]+$', file_id)`

  /** The character class `[a-f0-9\-]`. */
  predicate InIdClass(c: char) {
    'a' <= c <= 'f' || '0' <= c <= '9' || c == '-'
  }

  /** How many characters the greedy `[a-f0-9\-]+` takes at the start. */
  function ClassRun(s: string): (n: nat)
    ensures n <= |s|
    ensures forall k | 0 <= k < n :: InIdClass(s[k])
    ensures n == |s| || !InIdClass(s[n])
  {
    if |s| > 0 && InIdClass(s[0]) then 1 + ClassRun(s[1..]) else 0
  }

  /** A non-empty text made only of class characters. */
  predicate IsIdWord(w: string) {
    |w| > 0 && forall k | 0 <= k < |w| :: InIdClass(w[k])
  }

  lemma ClassRunAll(w: string)
    requires forall k | 0 <= k < |w| :: InIdClass(w[k])
    ensures ClassRun(w) == |w|
  {
  }

  /** The regex matches: a non-empty run, then the end of the text or a
      final newline (Python's `$`). Giving back characters of the run
      cannot help, since a class character is neither. So the check
      accepts exactly a word over `[a-f0-9-]`, optionally followed by one
      newline. */
  predicate IdCheck2(fileId: string): (ok: bool)
    ensures ok <==>
      IsIdWord(fileId) || (|fileId| >= 2 && fileId[|fileId| - 1] == '\n' && IsIdWord(fileId[..|fileId| - 1]))
  {
    RunThenEnd(fileId);
    var n := ClassRun(fileId);
    n >= 1 && (n == |fileId| || (n == |fileId| - 1 && fileId[n] == '\n'))
  }

  lemma RunThenEnd(fileId: string)
    ensures var n := ClassRun(fileId);
      n >= 1 && (n == |fileId| || (n == |fileId| - 1 && fileId[n] == '\n')) <==>
      IsIdWord(fileId) || (|fileId| >= 2 && fileId[|fileId| - 1] == '\n' && IsIdWord(fileId[..|fileId| - 1]))
  {
    var n := ClassRun(fileId);
    if IsIdWord(fileId) {
      ClassRunAll(fileId);
    }
    if |fileId| >= 2 && fileId[|fileId| - 1] == '\n' && IsIdWord(fileId[..|fileId| - 1]) {
      var w := fileId[..|fileId| - 1];
      assert forall k | 0 <= k < |w| :: fileId[k] == w[k];
    }
    if n >= 1 && n < |fileId| && n == |fileId| - 1 && fileId[n] == '\n' {
      assert fileId[..n] == fileId[..|fileId| - 1];
    }
  }

  /** Python's `$` lets a final newline through. */
  lemma IdCheck2TrailingNewline()
    ensures IdCheck2("0\n")
  {
    assert ClassRun("0\n"[1..]) == 0;
  }

  /** An accepted ID holds no path separator and no dot. */
  lemma IdCheck2Safe(fileId: string)
    requires IdCheck2(fileId)
    ensures Slash !in fileId && '\\' !in fileId && '.' !in fileId
  {
    if IsIdWord(fileId) {
    } else {
      assert fileId == fileId[..|fileId| - 1] + ['\n'];
    }
  }

  // ---------------------------------------------------------------------
  // Generated IDs

  /** Lower-case hexadecimal digits. */
  predicate IsHexDigit(c: char) {
    'a' <= c <= 'f' || '0' <= c <= '9'
  }

  /** Non-empty groups of lower-case hex digits, the shape of
      `str(uuid.uuid4())` (8-4-4-4-12). */
  predicate IsHexGroups(groups: seq<string>) {
    |groups| > 0 && forall g | g in groups :: |g| > 0 && forall k | 0 <= k < |g| :: IsHexDigit(g[k])
  }

  /** Text made of hex digits and '-'. */
  predicate HexOrDash(s: string) {
    forall k | 0 <= k < |s| :: s[k] == '-' || IsHexDigit(s[k])
  }

  /** A hex group, a '-' and hex-or-dash text make hex-or-dash text. */
  lemma HexDashCons(g: string, rest: string)
    requires forall k | 0 <= k < |g| :: IsHexDigit(g[k])
    requires HexOrDash(rest)
    ensures HexOrDash(g + "-" + rest)
  {
    var s := g + "-" + rest;
    forall k | 0 <= k < |s| ensures s[k] == '-' || IsHexDigit(s[k]) {
      if k < |g| {
        assert s[k] == g[k];
      } else if k > |g| {
        assert s[k] == rest[k - |g| - 1];
      }
    }
  }

  /** Hex groups joined by '-' are made of hex digits and '-'. */
  lemma {:induction false} JoinHexGroups(groups: seq<string>)
    requires forall g | g in groups :: forall k | 0 <= k < |g| :: IsHexDigit(g[k])
    ensures HexOrDash(Join(groups, "-"))
    decreases |groups|
  {
    if |groups| == 1 {
      assert groups[0] in groups;
    } else if |groups| > 1 {
      var tail := groups[1..];
      assert forall g | g in tail :: g in groups;
      JoinHexGroups(tail);
      assert groups[0] in groups;
      HexDashCons(groups[0], Join(tail, "-"));
    }
  }

  /** An ID shaped like a generated one passes both checks. */
  lemma GeneratedIdAccepted(groups: seq<string>)
    requires IsHexGroups(groups)
    ensures IdCheck1(Join(groups, "-"))
    ensures IdCheck2(Join(groups, "-"))
  {
    var id := Join(groups, "-");
    JoinHexGroups(groups);
    forall k | 0 <= k < |id| ensures InIdClass(id[k]) && (id[k] == '-' || IsAsciiAlnum(id[k])) {
    }
    assert groups[0] in groups;
    assert id[0] == groups[0][0];
    ClassRunAll(id);
  }

  // ---------------------------------------------------------------------
  // The lookups

  /** What `get_step` decides before touching the file system: refuse the
      ID with a message, or go on with the path of its STEP file. */
  datatype StepLookup = InvalidId(message: string) | StepFile(path: string)

  /** `get_step` of the first revision, up to the existence test. An
      accepted ID names a file directly inside the STEP directory. */
  function GetStep1(stepDir: string, fileId: string): (r: StepLookup)
    ensures r.InvalidId? <==> !IdCheck1(fileId)
    ensures r.InvalidId? ==> r.message == "Invalid file ID"
    ensures r.StepFile? && stepDir != [] && stepDir[|stepDir| - 1] != Slash ==>
      Split(r.path, [Slash]) == Split(stepDir, [Slash]) + [fileId + StepSuffix]
  {
    if !IdCheck1(fileId) then InvalidId("Invalid file ID")
    else
      IdCheck1Safe(fileId);
      StepFile(StepPath(stepDir, fileId))
  }

  /** `get_step` of the second revision, up to the existence test. */
  function GetStep2(stepDir: string, fileId: string): (r: StepLookup)
    ensures r.InvalidId? <==> !IdCheck2(fileId)
    ensures r.InvalidId? ==> r.message == "Invalid ID"
    ensures r.StepFile? && stepDir != [] && stepDir[|stepDir| - 1] != Slash ==>
      Split(r.path, [Slash]) == Split(stepDir, [Slash]) + [fileId + StepSuffix]
  {
    if !IdCheck2(fileId) then InvalidId("Invalid ID")
    else
      IdCheck2Safe(fileId);
      StepFile(StepPath(stepDir, fileId))
  }
}
