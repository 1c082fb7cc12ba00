# sshagent: PID discovery and socket paths, in Dafny

The repository provisions one SSH agent socket per principal. Its supervised
backend starts the system `ssh-agent -a <socket>` and learns the agent's process
id by reading the agent's standard output line by line. It looks for the first
line that matches the regular expression `SSH_AGENT_PID=(\d+);` and converts the
captured digits with `strconv.Atoi`. Every server and client names the socket
`<tmpDir>/.ssh_socks/<principal>.sock`.

This project models those two pieces of logic and proves their properties:

- `Conversion` (conversion.dfy) covers decimal digit strings: their value, the
  canonical text of a number, and `strconv.Atoi` on a 64-bit platform
  (`MaxInt` = 2^63 - 1), applied to a non-empty run of ASCII digits.
- `AgentPid` (agent_pid.dfy) covers the pattern as a leftmost-match search
  (`FindSubmatch`) and the scan of the output (`ParseLog` as the specification,
  `GetAgentPid` as the loop). The result is `Pid(n)`, `NotFound` (the
  "couldn't find agent's pid in output" error) or `ConversionError(digits)`.
- `Sockets` (sockets.dfy) covers the socket path and its inverse.
- `Wrappers` (wrappers.dfy) holds the `Option` type.

The output is taken as a sequence of lines that are already split. The
temporary directory is a parameter.

How the pattern is modelled: `\d` in Go matches ASCII digits only. Because
`\d+` must be followed by `;`, a match that starts at a given position covers
the whole digit run after the `=`. So each start position has at most one
match, and the leftmost match is the match at the smallest such position
(`MatchesAt`, `SubmatchFrom`).

Two facts about the code that shape the model:

- A missing PID line is a plain error with the text "couldn't find agent's
  pid in output", which is `NotFound` here.
- The principal is interpolated unchanged, with no sanitisation, and so it is
  in `SocketPath`.

## Model

| member | source | states |
|---|---|---|
| `Conversion.Atoi` | cmd/server/system/server.go:28-31 | A successful conversion gives a value in 0..MaxInt. A failure happens only for runs of 19 or more digits. |
| `Conversion.AtoiRoundTrip` | cmd/server/system/server.go:28 | Any decimal text of n <= MaxInt converts back to n, with any number of leading zeros. |
| `Conversion.AtoiRangeError` | cmd/server/system/server.go:28-31 | Any decimal text of n > MaxInt is rejected, with or without leading zeros. |
| `Conversion.Decompose` | cmd/server/system/server.go:28 | Every non-empty digit run is some leading zeros followed by the canonical text of a number. |
| `Conversion.AtoiAnyRun` | cmd/server/system/server.go:28-31 | For every non-empty digit run, Atoi gives the run's number when it is at most MaxInt and a range error otherwise. |
| `Conversion.ShortDigitsFit` | cmd/server/system/server.go:28 | A run of fewer than 19 digits always fits a 64-bit int. |
| `Conversion.ValueLeadingZeros` | cmd/server/system/server.go:28 | Leading zeros do not change the decimal value. |
| `Conversion.ValueOfItoa` | cmd/server/system/server.go:28 | Reading back the canonical decimal text of n gives n. |
| `Conversion.ItoaOfValue` | cmd/server/system/server.go:28 | Formatting the value of a canonical digit string gives the same string. |
| `Conversion.Itoa` | cmd/server/system/server.go:28 | The canonical text is a non-empty digit string that starts with '0' exactly when the number is 0. |
| `AgentPid.DigitRun` | cmd/server/system/server.go:20 | The result is the length of the maximal digit run at a position: all digits, then the end of the line or a non-digit. |
| `AgentPid.DigitRunExact` | cmd/server/system/server.go:20 | A digit run followed by a non-digit or by the end of the line is exactly the run that DigitRun measures. |
| `AgentPid.SubmatchFrom` | cmd/server/system/server.go:26-27 | A capture is a non-empty string of ASCII digits. |
| `AgentPid.FindSubmatch` | cmd/server/system/server.go:26-27 | A capture is a non-empty string of ASCII digits. |
| `AgentPid.SubmatchFromNone` | cmd/server/system/server.go:26-27 | The search from i finds nothing exactly when no position from i on matches. |
| `AgentPid.SubmatchFromSome` | cmd/server/system/server.go:26-28 | A successful search captures at the first matching position, and no earlier position matches. |
| `AgentPid.FindSubmatchLeftmost` | cmd/server/system/server.go:26-28 | The capture is d exactly when the leftmost match captures d. Both directions are proved. |
| `AgentPid.LeftmostUnique` | cmd/server/system/server.go:26-28 | If a position is the leftmost match, FindSubmatch returns its capture. |
| `AgentPid.AnnouncesMatchesAt` | cmd/server/system/server.go:20 | In a + "SSH_AGENT_PID=" + d + ";" + b, the pattern matches at the end of a and captures exactly d. |
| `AgentPid.MatchIff` | cmd/server/system/server.go:20-27 | A line matches exactly when it contains "SSH_AGENT_PID=", one or more ASCII digits and ";" in that order. Both directions are proved. |
| `AgentPid.FindSubmatchAtStart` | cmd/server/system/server.go:20-27 | A line that starts with the announcement of digits d captures d, whatever follows. |
| `AgentPid.NoMatchWithout` | cmd/server/system/server.go:20-27 | A line that lacks a character of the pattern's literal text never matches. |
| `AgentPid.EmptyDigitsDoNotMatch` | cmd/server/system/server.go:20 | "SSH_AGENT_PID=;" does not match, because it has no digits. |
| `AgentPid.MissingSemicolonDoesNotMatch` | cmd/server/system/server.go:20 | "SSH_AGENT_PID=42" does not match, because it has no ';'. |
| `AgentPid.UnanchoredMatch` | cmd/server/system/server.go:20-27 | "XSSH_AGENT_PID=7;" matches and captures "7", because the pattern is unanchored. |
| `AgentPid.Convert` | cmd/server/system/server.go:28-31 | The captured digits become a PID in 0..MaxInt or a conversion error that carries those digits. The error needs 19 or more digits. |
| `AgentPid.ParseLog` | cmd/server/system/server.go:24-35 | A PID is never negative and never exceeds MaxInt. A conversion error carries a digit run of 19 or more digits. |
| `AgentPid.GetAgentPid` | cmd/server/system/server.go:19-35 | The line-by-line loop gives the ParseLog result. It gives NotFound exactly when no line matches. |
| `AgentPid.ParseLogNotFound` | cmd/server/system/server.go:25-35 | The result is NotFound exactly when no line matches, which includes empty output. |
| `AgentPid.ParseLogFirstMatch` | cmd/server/system/server.go:25-33 | The first matching line decides the result, whether or not its digits convert. |
| `AgentPid.ParseLogIgnoresLaterLines` | cmd/server/system/server.go:25-33 | Once some line matches, appending more output never changes the result. |
| `AgentPid.ParseLogRoundTrip` | cmd/server/system/server.go:20-32 | If the first matching line starts with "SSH_AGENT_PID=", the decimal text of n <= MaxInt (leading zeros allowed) and ";", the result is Pid(n). |
| `AgentPid.ParseLogOverflow` | cmd/server/system/server.go:25-31 | If the first matching line starts with "SSH_AGENT_PID=", the decimal text of n > MaxInt (leading zeros allowed) and ";", the result is a conversion error carrying those digits, whatever text follows. The scan does not fall through to later lines. |
| `Sockets.SocketPath` | cmd/server/system/server.go:71 | The path starts with tmpDir + "/.ssh_socks/", ends with ".sock", has the principal in between, and has exactly that length. |
| `Sockets.PrincipalOf` | cmd/server/system/server.go:71 | A recovered principal is as long as the path minus the fixed parts. |
| `Sockets.PrincipalOfSocketPath` | cmd/server/system/server.go:71 | Every socket path gives its principal back. |
| `Sockets.SocketPathOfPrincipal` | cmd/server/system/server.go:71 | Every path that names a principal is that principal's socket path. |
| `Sockets.SocketPathInjective` | cmd/server/system/server.go:71 | Under one temporary root, distinct principal strings give distinct path strings. |

## Left out

- `createSSHAgent` (cmd/server/system/server.go:38-64) is left out. Finding the executable, removing the stale socket, starting the process, capturing its output and logging are all process and filesystem I/O.
- `os.FindProcess` (cmd/server/system/server.go:32) is a foreign OS call. The model returns the integer PID instead of a process handle.
- The error branch after the regular expression is compiled (cmd/server/system/server.go:20-23) is left out. It cannot be taken, because the pattern is a constant.
- The line splitting of `bufio.Scanner` is left out: newline handling, `\r` stripping and the 64 KiB line limit. The lines are an input. `br.Err()` is never checked, so a read error or an over-long line just ends the scan. Such output yields NotFound, which this model shows as the output up to that point.
- `Conversion.Atoi` handles only non-empty runs of ASCII digits. `strconv.Atoi` also accepts a sign, but the pattern never captures one.
- Lines are sequences of characters. UTF-8 decoding by Go's regexp is not modelled. The pattern is ASCII, so it matches the same text either way.
- `main` in cmd/server/system/server.go:67-73 is left out. It reads the temporary directory from the environment and the principal from the command line. Both are parameters of `SocketPath`.
- cmd/client/server/server.go (the embedded agent's Unix listener, accept loop, signal handling and wait group) is left out. It is concurrency and I/O, and its keyring comes from an external library. Its socket path at line 63 is the same formula as `SocketPath`.
- cmd/client/client.go is left out: it stats and dials the socket, generates an RSA key, and adds and lists keys through an external library. Its socket path at line 17 is the same formula as `SocketPath`.
- Sockets.SocketPathInjective: speaks about path strings only. Path resolution by the filesystem is not modelled. `alice` and `./alice` give different strings that name the same socket file, and a `/` or `..` inside a principal puts the socket in another directory.
