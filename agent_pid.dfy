/** Discovery of the external ssh-agent's process id from its standard output
    (getAgentProcessFromLog in cmd/server/system/server.go).

    The output arrives as a sequence of already-split lines. Each line is
    searched for the regular expression `SSH_AGENT_PID=(\d+);`; the first line
    that matches decides the result, and its captured digit run is converted to
    a 64-bit `int`. The model stops at that integer: turning it into an OS
    process handle is a foreign call. */
module AgentPid {
  import opened Wrappers
  import opened Conversion

  /** The literal text that precedes the digits in the pattern. */
  const PidPrefix: string := "SSH_AGENT_PID="

  /** What the scan of the agent's output yields. */
  datatype Outcome =
    | Pid(pid: int)                  // the announced process id
    | NotFound                       // "couldn't find agent's pid in output"
    | ConversionError(digits: string) // strconv.Atoi refused the captured digits

  // ---------------------------------------------------------------------------
  // The regular expression `SSH_AGENT_PID=(\d+);`
  // ---------------------------------------------------------------------------

  /** Length of the longest run of ASCII digits in `line` starting at `j`. */
  function DigitRun(line: string, j: nat): (n: nat)
    requires j <= |line|
    ensures j + n <= |line|
    ensures IsDigits(line[j..j + n])
    ensures j + n == |line| || !IsDigit(line[j + n])
    decreases |line| - j
  {
    if j < |line| && IsDigit(line[j]) then
      var rest := DigitRun(line, j + 1);
      assert line[j..j + 1 + rest] == [line[j]] + line[j + 1..j + 1 + rest];
      1 + rest
    else 0
  }

  /** The pattern matches starting at position `i`. Because `\d+` must be
      followed by `;`, the digits it covers are the whole run after the `=`,
      so from a given start there is at most one match. */
  predicate MatchesAt(line: string, i: nat) {
    var k := i + |PidPrefix|;
    && k <= |line|
    && line[i..k] == PidPrefix
    && var n := DigitRun(line, k);
       0 < n && k + n < |line| && line[k + n] == ';'
  }

  /** The capture group of the match starting at `i`. */
  function Captured(line: string, i: nat): (d: string)
    requires MatchesAt(line, i)
  {
    line[i + |PidPrefix| .. i + |PidPrefix| + DigitRun(line, i + |PidPrefix|)]
  }

  /** Leftmost-match search from position `i` onwards. */
  function SubmatchFrom(line: string, i: nat): (r: Option<string>)
    requires i <= |line|
    ensures r.Some? ==> |r.value| > 0 && IsDigits(r.value)
    decreases |line| - i
  {
    if i == |line| then None
    else if MatchesAt(line, i) then Some(Captured(line, i))
    else SubmatchFrom(line, i + 1)
  }

  /** The capture group of the leftmost match in `line`, if the line matches:
      what FindStringSubmatch returns at index 1 when the match has two parts. */
  function FindSubmatch(line: string): (r: Option<string>)
    ensures r.Some? ==> |r.value| > 0 && IsDigits(r.value)
  {
    SubmatchFrom(line, 0)
  }

  /** `line` is `a`, the prefix, a non-empty digit run `d`, a semicolon, then `b`. */
  ghost predicate Announces(line: string, a: string, d: string, b: string) {
    line == a + PidPrefix + d + ";" + b && |d| > 0 && IsDigits(d)
  }

  ghost predicate IsLeftmost(line: string, i: nat) {
    MatchesAt(line, i) && forall j :: 0 <= j < i ==> !MatchesAt(line, j)
  }

  /** The search from `i` finds nothing exactly when no position from `i` on matches. */
  lemma {:induction false} SubmatchFromNone(line: string, i: nat)
    requires i <= |line|
    ensures SubmatchFrom(line, i).None? <==> forall j :: i <= j ==> !MatchesAt(line, j)
    decreases |line| - i
  {
    if i < |line| && !MatchesAt(line, i) {
      SubmatchFromNone(line, i + 1);
    }
  }

  /** When the search from `i` succeeds, it captures at the first matching
      position from `i` on. */
  lemma {:induction false} SubmatchFromSome(line: string, i: nat) returns (j: nat)
    requires i <= |line| && SubmatchFrom(line, i).Some?
    ensures i <= j && MatchesAt(line, j) && SubmatchFrom(line, i).value == Captured(line, j)
    ensures forall m :: i <= m < j ==> !MatchesAt(line, m)
    decreases |line| - i
  {
    if MatchesAt(line, i) {
      j := i;
    } else {
      j := SubmatchFromSome(line, i + 1);
    }
  }

  /** FindSubmatch returns exactly the capture of the leftmost match. */
  lemma FindSubmatchLeftmost(line: string, d: string)
    ensures FindSubmatch(line) == Some(d) <==> exists i :: IsLeftmost(line, i) && Captured(line, i) == d
  {
    if FindSubmatch(line) == Some(d) {
      var j := SubmatchFromSome(line, 0);
      assert IsLeftmost(line, j);
    }
    if exists i :: IsLeftmost(line, i) && Captured(line, i) == d {
      var i: nat :| IsLeftmost(line, i) && Captured(line, i) == d;
      LeftmostUnique(line, i);
    }
  }

  /** Whenever some position is the leftmost match, FindSubmatch captures there. */
  lemma LeftmostUnique(line: string, i: nat)
    requires IsLeftmost(line, i)
    ensures FindSubmatch(line) == Some(Captured(line, i))
  {
    SubmatchFromNone(line, 0);
    var j := SubmatchFromSome(line, 0);
    assert !(j < i) && !(i < j);
  }

  /** A digit run that is followed by a non-digit (or by the end) is the
      whole run DigitRun measures. */
  lemma {:induction false} DigitRunExact(line: string, j: nat, n: nat)
    requires j + n <= |line| && IsDigits(line[j..j + n])
    requires j + n == |line| || !IsDigit(line[j + n])
    ensures DigitRun(line, j) == n
    decreases n
  {
    if n > 0 {
      assert line[j + 1..j + n] == line[j..j + n][1..];
      DigitRunExact(line, j + 1, n - 1);
    }
  }

  /** The match at the start of an announcement `a + prefix + d + ";" + b`
      begins at |a| and captures exactly `d`. */
  lemma AnnouncesMatchesAt(line: string, a: string, d: string, b: string)
    requires Announces(line, a, d, b)
    ensures MatchesAt(line, |a|) && Captured(line, |a|) == d
  {
    var k := |a| + |PidPrefix|;
    assert line[|a|..k] == PidPrefix;
    assert line[k..k + |d|] == d;
    assert line[k + |d|] == ';';
    DigitRunExact(line, k, |d|);
  }

  /** A line matches the pattern if and only if it contains, somewhere, the
      prefix, one or more ASCII digits and a semicolon, in that order. */
  lemma MatchIff(line: string)
    ensures FindSubmatch(line).Some? <==> exists a, d, b :: Announces(line, a, d, b)
  {
    if FindSubmatch(line).Some? {
      MatchGivesAnnouncement(line);
    }
    if exists a, d, b :: Announces(line, a, d, b) {
      var a, d, b :| Announces(line, a, d, b);
      AnnouncesMatchesAt(line, a, d, b);
      SubmatchFromNone(line, 0);
    }
  }

  lemma MatchGivesAnnouncement(line: string)
    requires FindSubmatch(line).Some?
    ensures exists a, d, b :: Announces(line, a, d, b)
  {
    var i := SubmatchFromSome(line, 0);
    var k := i + |PidPrefix|;
    var n := DigitRun(line, k);
    var a, d, b := line[..i], line[k..k + n], line[k + n + 1..];
    assert line[i..k] == PidPrefix;
    assert line[k + n..k + n + 1] == ";";
    SplitFive(line, i, k, k + n);
    assert Announces(line, a, d, b);
  }

  lemma SplitFive<T>(s: seq<T>, i: nat, k: nat, m: nat)
    requires i <= k <= m < |s|
    ensures s == s[..i] + s[i..k] + s[k..m] + s[m..m + 1] + s[m + 1..]
  {
  }

  /** An announcement at the very start of a line is the match, whatever follows. */
  lemma FindSubmatchAtStart(d: string, rest: string)
    requires |d| > 0 && IsDigits(d)
    ensures FindSubmatch(PidPrefix + d + ";" + rest) == Some(d)
  {
    AnnouncesMatchesAt(PidPrefix + d + ";" + rest, [], d, rest);
    assert [] + PidPrefix + d + ";" + rest == PidPrefix + d + ";" + rest;
  }

  /** A line lacking any one character of the pattern's literal text (the
      prefix or the semicolon) cannot match. */
  lemma NoMatchWithout(line: string, c: char)
    requires c in PidPrefix + ";" && c !in line
    ensures FindSubmatch(line).None?
  {
    MatchIff(line);
  }

  /** `SSH_AGENT_PID=;` has no digits, so it does not match. */
  lemma EmptyDigitsDoNotMatch()
    ensures FindSubmatch("SSH_AGENT_PID=;").None?
  {
    MatchIff("SSH_AGENT_PID=;");
  }

  /** `SSH_AGENT_PID=42` has no semicolon, so it does not match. */
  lemma MissingSemicolonDoesNotMatch()
    ensures FindSubmatch("SSH_AGENT_PID=42").None?
  {
    NoMatchWithout("SSH_AGENT_PID=42", ';');
  }

  /** The pattern is unanchored: `XSSH_AGENT_PID=7;` matches and captures `7`. */
  lemma UnanchoredMatch()
    ensures FindSubmatch("XSSH_AGENT_PID=7;") == Some("7")
  {
    var line := "XSSH_AGENT_PID=7;";
    assert Announces(line, "X", "7", "");
    AnnouncesMatchesAt(line, "X", "7", "");
    assert !MatchesAt(line, 0) by {
      assert line[0] != PidPrefix[0];
    }
    assert IsLeftmost(line, 1);
    FindSubmatchLeftmost(line, "7");
  }

  // ---------------------------------------------------------------------------
  // Scanning the agent's output
  // ---------------------------------------------------------------------------

  /** The captured digits become the PID, or a conversion error. */
  function Convert(d: string): (r: Outcome)
    requires |d| > 0 && IsDigits(d)
    ensures r.Pid? || r == ConversionError(d)
    ensures r.Pid? ==> 0 <= r.pid <= MaxInt
    ensures r.ConversionError? ==> |d| >= 19
  {
    match Atoi(d)
    case Some(n) => Pid(n)
    case None => ConversionError(d)
  }

  /** The result of scanning `lines` in order: the first line that matches
      decides, and running out of lines is NotFound. */
  function ParseLog(lines: seq<string>): (r: Outcome)
    ensures r.Pid? ==> 0 <= r.pid <= MaxInt
    ensures r.ConversionError? ==> |r.digits| >= 19 && IsDigits(r.digits)
  {
    if lines == [] then NotFound
    else match FindSubmatch(lines[0])
      case Some(d) => Convert(d)
      case None => ParseLog(lines[1..])
  }

  /** getAgentProcessFromLog, up to the PID: reads the lines one at a time and
      returns as soon as one matches. */
  method GetAgentPid(lines: seq<string>) returns (r: Outcome)
    ensures r == ParseLog(lines)
    ensures r == NotFound <==> forall k :: 0 <= k < |lines| ==> FindSubmatch(lines[k]).None?
  {
    var i := 0;
    while i < |lines|
      invariant 0 <= i <= |lines|
      invariant ParseLog(lines[i..]) == ParseLog(lines)
      invariant forall k :: 0 <= k < i ==> FindSubmatch(lines[k]).None?
    {
      assert lines[i..][1..] == lines[i + 1..];
      var m := FindSubmatch(lines[i]);
      if m.Some? {
        r := Convert(m.value);
        ParseLogNotFound(lines);
        return;
      }
      i := i + 1;
    }
    r := NotFound;
    ParseLogNotFound(lines);
  }

  /** The scan ends in NotFound exactly when no line matches (in particular
      for empty output). */
  lemma {:induction false} ParseLogNotFound(lines: seq<string>)
    ensures ParseLog(lines) == NotFound <==> forall k :: 0 <= k < |lines| ==> FindSubmatch(lines[k]).None?
  {
    if lines != [] {
      ParseLogNotFound(lines[1..]);
      if FindSubmatch(lines[0]).None? {
        assert forall k :: 1 <= k < |lines| ==> lines[k] == lines[1..][k - 1];
      }
    }
  }

  /** The first matching line decides the result, whether its digits convert
      or not; no later line is consulted. */
  lemma {:induction false} ParseLogFirstMatch(lines: seq<string>, k: nat)
    requires k < |lines| && FindSubmatch(lines[k]).Some?
    requires forall j :: 0 <= j < k ==> FindSubmatch(lines[j]).None?
    ensures ParseLog(lines) == Convert(FindSubmatch(lines[k]).value)
  {
    if k > 0 {
      assert lines[1..][k - 1] == lines[k];
      ParseLogFirstMatch(lines[1..], k - 1);
    }
  }

  /** Output appended after a matching line never changes the result. */
  lemma {:induction false} ParseLogIgnoresLaterLines(lines: seq<string>, more: seq<string>)
    requires exists k :: 0 <= k < |lines| && FindSubmatch(lines[k]).Some?
    ensures ParseLog(lines + more) == ParseLog(lines)
  {
    if FindSubmatch(lines[0]).None? {
      var k :| 0 <= k < |lines| && FindSubmatch(lines[k]).Some?;
      assert lines[1..][k - 1] == lines[k];
      assert (lines + more)[1..] == lines[1..] + more;
      ParseLogIgnoresLaterLines(lines[1..], more);
    }
  }

  /** Round trip: when the first matching line starts with the announcement of
      `n` (with any number of leading zeros) and `n` fits an `int`, the scan
      yields exactly `n`. */
  lemma ParseLogRoundTrip(lines: seq<string>, k: nat, z: nat, n: nat, rest: string)
    requires k < |lines| && n <= MaxInt
    requires forall j :: 0 <= j < k ==> FindSubmatch(lines[j]).None?
    requires lines[k] == PidPrefix + (Zeros(z) + Itoa(n)) + ";" + rest
    ensures ParseLog(lines) == Pid(n)
  {
    FindSubmatchAtStart(Zeros(z) + Itoa(n), rest);
    ParseLogFirstMatch(lines, k);
    AtoiRoundTrip(z, n);
  }

  /** When the first matching line starts with the announcement of a number
      above MaxInt (with any number of leading zeros and any trailing text),
      the result is a conversion error carrying those digits: the scan does not
      fall through to a later, valid announcement. */
  lemma ParseLogOverflow(lines: seq<string>, k: nat, z: nat, n: nat, rest: string)
    requires k < |lines| && n > MaxInt
    requires forall j :: 0 <= j < k ==> FindSubmatch(lines[j]).None?
    requires lines[k] == PidPrefix + (Zeros(z) + Itoa(n)) + ";" + rest
    ensures ParseLog(lines) == ConversionError(Zeros(z) + Itoa(n))
  {
    FindSubmatchAtStart(Zeros(z) + Itoa(n), rest);
    ParseLogFirstMatch(lines, k);
    AtoiRangeError(z, n);
  }
}
