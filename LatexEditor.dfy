/** The editor's line-based LaTeX checker and its status badge. The text is
    split into lines; every line, in order, may produce a warning for
    unbalanced braces, an error for a `\begin{NAME}` that no later line
    closes with any `\end{`, and one note per command token that is neither
    in a fixed list of known commands nor a single lower-case letter. */
module LatexValidator {
  import opened Text

  datatype Severity = Error | Warning | Info

  datatype Diagnostic = Diagnostic(line: int, column: int, message: string, severity: Severity)

  const BraceMessage := "Unmatched braces detected"
  const BeginMarker := "\\begin{"
  const EndMarker := "\\end{"
  const UndefinedPrefix := "Possibly undefined command: "

  /** The commands the checker accepts without comment. The editor keeps
      them in an array and asks only whether a token is among them. */
  const KnownCommands: set<string> := {
    "\\documentclass", "\\usepackage", "\\begin", "\\end", "\\title", "\\author",
    "\\date", "\\maketitle", "\\section", "\\subsection", "\\item", "\\textbf",
    "\\textit", "\\emph", "\\cite", "\\ref", "\\label", "\\today", "\\newline",
    "\\int", "\\sum", "\\frac", "\\sqrt", "\\alpha", "\\beta", "\\gamma", "\\delta"
  }

  // ---------------------------------------------------------------------
  // Splitting into lines: `code.split('\n')`
  // ---------------------------------------------------------------------

  /** The pieces of `code` between newline characters, keeping empty pieces
      at either end, as JavaScript's `split('\n')` does. */
  function SplitLines(code: string): (lines: seq<string>)
    ensures |lines| == CountChar(code, '\n') + 1
    ensures forall i :: 0 <= i < |lines| ==> '\n' !in lines[i]
    decreases |code|
  {
    if code == [] then [""]
    else
      var rest := SplitLines(code[1..]);
      if code[0] == '\n' then [""] + rest
      else [[code[0]] + rest[0]] + rest[1..]
  }

  /** The inverse of splitting: the lines glued back with newlines. */
  function JoinLines(lines: seq<string>): string
    requires |lines| >= 1
    decreases |lines|
  {
    if |lines| == 1 then lines[0] else lines[0] + "\n" + JoinLines(lines[1..])
  }

  lemma {:induction false} JoinSplitLines(code: string)
    ensures JoinLines(SplitLines(code)) == code
    decreases |code|
  {
    if code != [] {
      var rest := SplitLines(code[1..]);
      JoinSplitLines(code[1..]);
      if code[0] == '\n' {
        JoinAfterEmptyLine(rest);
      } else {
        JoinExtendedFirstLine(code[0], rest);
      }
      assert code == [code[0]] + code[1..];
    }
  }

  /** A leading empty line contributes just its newline. */
  lemma JoinAfterEmptyLine(rest: seq<string>)
    requires |rest| >= 1
    ensures JoinLines([""] + rest) == "\n" + JoinLines(rest)
  {
    assert ([""] + rest)[1..] == rest;
  }

  /** A character put in front of the first line comes first in the text. */
  lemma JoinExtendedFirstLine(c: char, rest: seq<string>)
    requires |rest| >= 1
    ensures JoinLines([[c] + rest[0]] + rest[1..]) == [c] + JoinLines(rest)
  {
    var first, more := rest[0], rest[1..];
    assert rest == [first] + more;
    JoinPrepend(c, first, more);
  }

  lemma JoinPrepend(c: char, first: string, more: seq<string>)
    ensures JoinLines([[c] + first] + more) == [c] + JoinLines([first] + more)
  {
    if more == [] {
      assert [[c] + first] + more == [[c] + first];
      assert [first] + more == [first];
    } else {
      var tail := JoinLines(more);
      assert ([[c] + first] + more)[1..] == more;
      assert ([first] + more)[1..] == more;
      assert ([c] + first) + "\n" + tail == [c] + (first + "\n" + tail);
    }
  }

  // ---------------------------------------------------------------------
  // Command tokens: `line.match(/\\[a-zA-Z]+/g)`
  // ---------------------------------------------------------------------

  /** The maximal token `\letters` that starts at `i`. */
  function CommandAt(s: string, i: int): (t: string)
    requires CommandStart(s, i)
    ensures |t| >= 2 && t[0] == '\\' && OccursAt(s, t, i)
    ensures forall j :: 1 <= j < |t| ==> IsLetter(t[j])
  {
    s[i..i + 1 + LetterRun(s, i + 1)]
  }

  /** The global match as the regex engine runs it: after a token, the search
      resumes just past it. */
  function CommandsFrom(s: string, i: nat): seq<string>
    requires i <= |s|
    decreases |s| - i
  {
    if i == |s| then []
    else if CommandStart(s, i) then [CommandAt(s, i)] + CommandsFrom(s, i + 1 + LetterRun(s, i + 1))
    else CommandsFrom(s, i + 1)
  }

  function CommandTokens(line: string): seq<string> {
    CommandsFrom(line, 0)
  }

  /** Reference definition: one token for every backslash that is followed
      by a letter, looking at every position. */
  function CommandsAtEvery(s: string, i: nat): seq<string>
    requires i <= |s|
    decreases |s| - i
  {
    if i == |s| then []
    else (if CommandStart(s, i) then [CommandAt(s, i)] else []) + CommandsAtEvery(s, i + 1)
  }

  /** No token starts inside the letters of another. */
  lemma {:induction false} SkipLetters(s: string, i: nat, n: nat)
    requires i + n <= |s|
    requires forall j :: i <= j < i + n ==> IsLetter(s[j])
    ensures CommandsAtEvery(s, i) == CommandsAtEvery(s, i + n)
    decreases n
  {
    if n > 0 {
      assert !CommandStart(s, i);
      SkipLetters(s, i + 1, n - 1);
    }
  }

  /** The scanner finds exactly the tokens the reference definition does. */
  lemma {:induction false} CommandsFromIsEvery(s: string, i: nat)
    requires i <= |s|
    ensures CommandsFrom(s, i) == CommandsAtEvery(s, i)
    decreases |s| - i
  {
    if i < |s| {
      if CommandStart(s, i) {
        var n := LetterRun(s, i + 1);
        SkipLetters(s, i + 1, n);
        CommandsFromIsEvery(s, i + 1 + n);
      } else {
        CommandsFromIsEvery(s, i + 1);
      }
    }
  }

  lemma TokenAtOccurs(s: string, i: nat)
    requires CommandStart(s, i)
    ensures 0 <= IndexOf(s, CommandAt(s, i)) && IndexOf(s, CommandAt(s, i)) + |CommandAt(s, i)| <= |s|
  {
    var t := CommandAt(s, i);
    assert OccursAt(s, t, i);
  }

  /** Every token is a backslash and letters, and occurs in the line, so the
      column `indexOf(cmd) + 1` lies within the line. */
  lemma {:induction false} TokensOccur(s: string, i: nat)
    requires i <= |s|
    ensures forall t :: t in CommandsFrom(s, i) ==>
      |t| >= 2 && t[0] == '\\' && (forall j :: 1 <= j < |t| ==> IsLetter(t[j])) &&
      0 <= IndexOf(s, t) && IndexOf(s, t) + |t| <= |s|
    decreases |s| - i
  {
    if i < |s| {
      if CommandStart(s, i) {
        TokenAtOccurs(s, i);
        TokensOccur(s, i + 1 + LetterRun(s, i + 1));
      } else {
        TokensOccur(s, i + 1);
      }
    }
  }

  /** A token is reported unless it is known or is `\` and one lower-case
      letter (`/^\\[a-z]$/`). */
  predicate Flagged(cmd: string) {
    cmd !in KnownCommands && !(|cmd| == 2 && cmd[0] == '\\' && IsLower(cmd[1]))
  }

  // ---------------------------------------------------------------------
  // Environments: `\begin{NAME}` and later `\end{`
  // ---------------------------------------------------------------------

  /** `\begin{NAME}` with a non-empty NAME free of `}` occurs at `p`. */
  predicate BeginMatchAt(line: string, p: int, name: string) {
    && OccursAt(line, BeginMarker, p)
    && |name| > 0 && '}' !in name
    && p + 7 + |name| < |line|
    && line[p + 7..p + 7 + |name|] == name
    && line[p + 7 + |name|] == '}'
  }

  /** The text from `q` up to the first `}` after it, when that is non-empty. */
  function EnvNameAt(line: string, q: nat): Option<string> {
    var k := FindChar(line, '}', q);
    if k > q then Some(line[q..k]) else None
  }

  /** A match at `p` is exactly what `EnvNameAt` finds after the marker. */
  lemma EnvNameAtMatches(line: string, p: nat)
    requires OccursAt(line, BeginMarker, p)
    ensures EnvNameAt(line, p + 7).Some? ==> BeginMatchAt(line, p, EnvNameAt(line, p + 7).value)
    ensures EnvNameAt(line, p + 7).None? ==> forall name :: !BeginMatchAt(line, p, name)
  {
    var k := FindChar(line, '}', p + 7);
    if k > p + 7 {
      var name := line[p + 7..k];
      assert forall j :: 0 <= j < |name| ==> name[j] == line[p + 7 + j];
    } else {
      forall name | BeginMatchAt(line, p, name) ensures false {
      }
    }
  }

  /** No `\begin{NAME}` match starts in `[from, to)`. */
  ghost predicate NoBeginMatchIn(line: string, from: int, to: int) {
    forall p, name :: from <= p < to ==> !BeginMatchAt(line, p, name)
  }

  /** The capture of `line.match(/\\begin\{([^}]+)\}/)`, searching from `p`:
      the name of the leftmost match. */
  function BeginNameFrom(line: string, p: nat): (r: Option<string>)
    decreases |line| - p
    ensures r.Some? ==> exists p' :: p <= p' && BeginMatchAt(line, p', r.value) && NoBeginMatchIn(line, p, p')
    ensures r.None? ==> forall p', name :: p <= p' ==> !BeginMatchAt(line, p', name)
  {
    if p >= |line| then None
    else if OccursAt(line, BeginMarker, p) && EnvNameAt(line, p + 7).Some? then
      EnvNameAtMatches(line, p);
      assert NoBeginMatchIn(line, p, p);
      EnvNameAt(line, p + 7)
    else
      var r := BeginNameFrom(line, p + 1);
      NoBeginMatchAt(line, p);
      BeginSearchSkips(line, p, r);
      r
  }

  /** No match starts at `p` unless the marker is there with a non-empty name. */
  lemma NoBeginMatchAt(line: string, p: nat)
    requires !(OccursAt(line, BeginMarker, p) && EnvNameAt(line, p + 7).Some?)
    ensures forall name :: !BeginMatchAt(line, p, name)
  {
    if OccursAt(line, BeginMarker, p) {
      EnvNameAtMatches(line, p);
    }
  }

  /** When nothing matches at `p`, the search from `p + 1` answers for `p`. */
  lemma BeginSearchSkips(line: string, p: nat, r: Option<string>)
    requires forall name :: !BeginMatchAt(line, p, name)
    requires r.Some? ==> exists p' :: p + 1 <= p' && BeginMatchAt(line, p', r.value) && NoBeginMatchIn(line, p + 1, p')
    requires r.None? ==> forall p', name :: p + 1 <= p' ==> !BeginMatchAt(line, p', name)
    ensures r.Some? ==> exists p' :: p <= p' && BeginMatchAt(line, p', r.value) && NoBeginMatchIn(line, p, p')
    ensures r.None? ==> forall p', name :: p <= p' ==> !BeginMatchAt(line, p', name)
  {
    if r.Some? {
      var p' :| p + 1 <= p' && BeginMatchAt(line, p', r.value) && NoBeginMatchIn(line, p + 1, p');
      assert NoBeginMatchIn(line, p, p');
    }
  }

  /** A matched name runs from just after the marker up to the first `}`. */
  lemma NameRunsToBrace(line: string, p: int, name: string)
    requires BeginMatchAt(line, p, name)
    ensures FindChar(line, '}', p + 7) == p + 7 + |name|
  {
    assert forall j :: p + 7 <= j < p + 7 + |name| ==> line[j] == name[j - p - 7];
  }

  /** At a given position at most one name matches. */
  lemma BeginMatchUnique(line: string, p: int, a: string, b: string)
    requires BeginMatchAt(line, p, a) && BeginMatchAt(line, p, b)
    ensures a == b
  {
    NameRunsToBrace(line, p, a);
    NameRunsToBrace(line, p, b);
  }

  /** The captured name is the one of the leftmost match: any match at the
      earliest matching position carries exactly that name. */
  lemma BeginNameIsLeftmost(line: string, p: int, name: string)
    requires BeginMatchAt(line, p, name) && NoBeginMatchIn(line, 0, p)
    ensures BeginName(line) == Some(name)
  {
    var r := BeginName(line);
    assert r.Some?;
    var p' :| 0 <= p' && BeginMatchAt(line, p', r.value) && NoBeginMatchIn(line, 0, p');
    assert p' == p;
    BeginMatchUnique(line, p, name, r.value);
  }

  function BeginName(line: string): Option<string> {
    BeginNameFrom(line, 0)
  }

  /** `ls.some(l => l.includes(pat))`. */
  function SomeIncludes(ls: seq<string>, pat: string): bool {
    if ls == [] then false else Includes(ls[0], pat) || SomeIncludes(ls[1..], pat)
  }

  lemma {:induction false} SomeIncludesIff(ls: seq<string>, pat: string)
    ensures SomeIncludes(ls, pat) <==> exists j :: 0 <= j < |ls| && Includes(ls[j], pat)
  {
    if ls != [] {
      SomeIncludesIff(ls[1..], pat);
      if SomeIncludes(ls[1..], pat) {
        var j :| 0 <= j < |ls| - 1 && Includes(ls[1..][j], pat);
        assert Includes(ls[j + 1], pat);
      }
      if exists j :: 0 <= j < |ls| && Includes(ls[j], pat) {
        var j :| 0 <= j < |ls| && Includes(ls[j], pat);
        assert j == 0 || Includes(ls[1..][j - 1], pat);
      }
    }
  }

  /** `lines.slice(index + 1).some(l => l.includes('\\end{'))`. */
  predicate LaterEnd(lines: seq<string>, index: nat)
    requires index < |lines|
  {
    SomeIncludes(lines[index + 1..], EndMarker)
  }

  /** The condition under which line `index` reports a missing `\end`. */
  predicate MissingEndAt(lines: seq<string>, index: nat)
    requires index < |lines|
  {
    Includes(lines[index], BeginMarker) && !LaterEnd(lines, index) && BeginName(lines[index]).Some?
  }

  // ---------------------------------------------------------------------
  // The diagnostics of one line and of the whole text
  // ---------------------------------------------------------------------

  function BraceDiagnostics(line: string, index: nat): seq<Diagnostic> {
    if CountChar(line, '{') != CountChar(line, '}') then [Diagnostic(index + 1, 1, BraceMessage, Warning)]
    else []
  }

  function MissingEndDiagnostics(lines: seq<string>, index: nat): seq<Diagnostic>
    requires index < |lines|
  {
    if Includes(lines[index], BeginMarker) && !LaterEnd(lines, index) then
      match BeginName(lines[index])
      case Some(name) => [Diagnostic(index + 1, 1, "Missing \\end{" + name + "}", Error)]
      case None => []
    else []
  }

  function InfoFor(line: string, index: nat, cmd: string): seq<Diagnostic> {
    if Flagged(cmd) then [Diagnostic(index + 1, IndexOf(line, cmd) + 1, UndefinedPrefix + cmd, Info)]
    else []
  }

  /** One note per reported token, in token order. */
  function CommandDiagnostics(line: string, index: nat, cmds: seq<string>): (r: seq<Diagnostic>)
    ensures |r| <= |cmds|
    ensures forall d :: d in r ==> d.line == index + 1 && d.severity == Info
    decreases |cmds|
  {
    if cmds == [] then []
    else CommandDiagnostics(line, index, cmds[..|cmds| - 1]) + InfoFor(line, index, cmds[|cmds| - 1])
  }

  /** Everything line `index` reports: the brace warning, then the missing
      `\end` error, then the notes on commands. */
  function LineDiagnostics(lines: seq<string>, index: nat): seq<Diagnostic>
    requires index < |lines|
  {
    BraceDiagnostics(lines[index], index)
      + MissingEndDiagnostics(lines, index)
      + CommandDiagnostics(lines[index], index, CommandTokens(lines[index]))
  }

  /** The diagnostics of every line, line by line. */
  function PerLine(lines: seq<string>): (groups: seq<seq<Diagnostic>>)
    ensures |groups| == |lines|
    ensures forall i :: 0 <= i < |lines| ==> groups[i] == LineDiagnostics(lines, i)
  {
    seq(|lines|, i requires 0 <= i < |lines| => LineDiagnostics(lines, i))
  }

  /** The groups one after another. */
  function Concat(groups: seq<seq<Diagnostic>>): seq<Diagnostic>
    decreases |groups|
  {
    if groups == [] then [] else Concat(groups[..|groups| - 1]) + groups[|groups| - 1]
  }

  function Validate(lines: seq<string>): seq<Diagnostic> {
    Concat(PerLine(lines))
  }

  /** `validateLaTeX`: walks the lines in order, letting each one push its
      diagnostics onto a shared list. */
  method ValidateLaTeX(code: string) returns (errors: seq<Diagnostic>)
    ensures errors == Validate(SplitLines(code))
  {
    errors := [];
    var lines := SplitLines(code);
    var index := 0;
    while index < |lines|
      invariant 0 <= index <= |lines|
      invariant errors == Concat(PerLine(lines)[..index])
    {
      errors := CheckLine(lines, index, errors);
      ConcatPerLineStep(lines, index);
      index := index + 1;
    }
    assert PerLine(lines)[..index] == PerLine(lines);
  }

  /** One more line appends that line's diagnostics. */
  lemma ConcatPerLineStep(lines: seq<string>, index: nat)
    requires index < |lines|
    ensures Concat(PerLine(lines)[..index + 1]) == Concat(PerLine(lines)[..index]) + LineDiagnostics(lines, index)
  {
    var groups := PerLine(lines)[..index + 1];
    assert groups[..index] == PerLine(lines)[..index];
    assert groups[index] == LineDiagnostics(lines, index);
  }

  /** The body of the `lines.forEach` callback: the checks of line `index`,
      pushed after the diagnostics already collected, with an inner walk over
      the line's command tokens. */
  method CheckLine(lines: seq<string>, index: nat, errors: seq<Diagnostic>) returns (pushed: seq<Diagnostic>)
    requires index < |lines|
    ensures pushed == errors + LineDiagnostics(lines, index)
  {
    pushed := errors;
    var line := lines[index];
    var openBraces := CountChar(line, '{');
    var closeBraces := CountChar(line, '}');
    if openBraces != closeBraces {
      pushed := pushed + [Diagnostic(index + 1, 1, BraceMessage, Warning)];
    }
    if Includes(line, BeginMarker) && !LaterEnd(lines, index) {
      var envMatch := BeginName(line);
      if envMatch.Some? {
        pushed := pushed + [Diagnostic(index + 1, 1, "Missing \\end{" + envMatch.value + "}", Error)];
      }
    }
    ghost var b, e := BraceDiagnostics(line, index), MissingEndDiagnostics(lines, index);
    assert pushed == errors + b + e;
    var commandMatches := CommandTokens(line);
    pushed := PushCommandNotes(line, index, commandMatches, pushed);
    ghost var c := CommandDiagnostics(line, index, commandMatches);
    assert LineDiagnostics(lines, index) == b + e + c;
    Concat4(errors, b, e, c);
  }

  lemma Concat4(a: seq<Diagnostic>, b: seq<Diagnostic>, c: seq<Diagnostic>, d: seq<Diagnostic>)
    ensures a + (b + c + d) == a + b + c + d
  {
  }

  /** The `commandMatches.forEach` walk: one note per reported token of the
      line, pushed in token order. */
  method PushCommandNotes(line: string, index: nat, commandMatches: seq<string>, errors: seq<Diagnostic>)
    returns (pushed: seq<Diagnostic>)
    ensures pushed == errors + CommandDiagnostics(line, index, commandMatches)
  {
    pushed := errors;
    var j := 0;
    while j < |commandMatches|
      invariant 0 <= j <= |commandMatches|
      invariant pushed == errors + CommandDiagnostics(line, index, commandMatches[..j])
    {
      var cmd := commandMatches[j];
      PushStep(line, index, commandMatches, j, errors, pushed);
      if Flagged(cmd) {
        pushed := pushed + [Diagnostic(index + 1, IndexOf(line, cmd) + 1, UndefinedPrefix + cmd, Info)];
      }
      j := j + 1;
    }
    assert commandMatches[..j] == commandMatches;
  }

  /** One turn of the loop above extends the notes by the next token's. */
  lemma PushStep(line: string, index: nat, cmds: seq<string>, j: nat, errors: seq<Diagnostic>, pushed: seq<Diagnostic>)
    requires j < |cmds|
    requires pushed == errors + CommandDiagnostics(line, index, cmds[..j])
    ensures (if Flagged(cmds[j])
      then pushed + [Diagnostic(index + 1, IndexOf(line, cmds[j]) + 1, UndefinedPrefix + cmds[j], Info)]
      else pushed) == errors + CommandDiagnostics(line, index, cmds[..j + 1])
  {
    CommandDiagnosticsSnoc(line, index, cmds, j);
  }

  /** One more token adds that token's note, if any, at the end. */
  lemma CommandDiagnosticsSnoc(line: string, index: nat, cmds: seq<string>, j: nat)
    requires j < |cmds|
    ensures CommandDiagnostics(line, index, cmds[..j + 1])
      == CommandDiagnostics(line, index, cmds[..j]) + InfoFor(line, index, cmds[j])
  {
    var done := cmds[..j + 1];
    assert done[..j] == cmds[..j] && done[j] == cmds[j];
  }

  // ---------------------------------------------------------------------
  // Properties of the diagnostics
  // ---------------------------------------------------------------------

  /** Each note names a reported token, at column one past the first
      occurrence of that token's text. */
  lemma {:induction false} CommandDiagnosticsNameTokens(line: string, index: nat, cmds: seq<string>)
    ensures forall d :: d in CommandDiagnostics(line, index, cmds) ==>
      exists t :: t in cmds && Flagged(t) && d == Diagnostic(index + 1, IndexOf(line, t) + 1, UndefinedPrefix + t, Info)
    decreases |cmds|
  {
    if cmds != [] {
      var init := cmds[..|cmds| - 1];
      CommandDiagnosticsNameTokens(line, index, init);
      assert forall t :: t in init ==> t in cmds;
    }
  }

  /** The tokens the inner walk reports, in token order, repeats kept. */
  function FlaggedTokens(cmds: seq<string>): (r: seq<string>)
    ensures forall t :: t in r <==> t in cmds && Flagged(t)
    decreases |cmds|
  {
    if cmds == [] then []
    else
      var init, last := cmds[..|cmds| - 1], cmds[|cmds| - 1];
      assert cmds == init + [last];
      FlaggedTokens(init) + (if Flagged(last) then [last] else [])
  }

  /** The note for each of `tokens`, in order. */
  function NotesFor(line: string, index: nat, tokens: seq<string>): seq<Diagnostic> {
    seq(|tokens|, k requires 0 <= k < |tokens| =>
      Diagnostic(index + 1, IndexOf(line, tokens[k]) + 1, UndefinedPrefix + tokens[k], Info))
  }

  /** The notes of a line are exactly one note per reported token, in token
      order: a token that occurs twice is noted twice. */
  lemma {:induction false} CommandDiagnosticsAreNotes(line: string, index: nat, cmds: seq<string>)
    ensures CommandDiagnostics(line, index, cmds) == NotesFor(line, index, FlaggedTokens(cmds))
    decreases |cmds|
  {
    if cmds != [] {
      var init, last := cmds[..|cmds| - 1], cmds[|cmds| - 1];
      CommandDiagnosticsAreNotes(line, index, init);
      var f := FlaggedTokens(init);
      var tail := if Flagged(last) then [last] else [];
      assert FlaggedTokens(cmds) == f + tail;
      assert InfoFor(line, index, last) == NotesFor(line, index, tail);
      NotesForAppend(line, index, f, tail);
    }
  }

  lemma NotesForAppend(line: string, index: nat, a: seq<string>, b: seq<string>)
    ensures NotesFor(line, index, a + b) == NotesFor(line, index, a) + NotesFor(line, index, b)
  {
    var l, r := NotesFor(line, index, a + b), NotesFor(line, index, a) + NotesFor(line, index, b);
    assert |l| == |r|;
    forall k | 0 <= k < |l| ensures l[k] == r[k] {
      if k < |a| {
        assert (a + b)[k] == a[k];
      } else {
        assert (a + b)[k] == b[k - |a|];
      }
    }
  }

  /** Every note names one of the tokens it was made for. */
  lemma NotesForMembers(line: string, index: nat, tokens: seq<string>)
    ensures forall d :: d in NotesFor(line, index, tokens) ==>
      exists t :: t in tokens && d == Diagnostic(index + 1, IndexOf(line, t) + 1, UndefinedPrefix + t, Info)
  {
    var n := NotesFor(line, index, tokens);
    forall d | d in n
      ensures exists t :: t in tokens && d == Diagnostic(index + 1, IndexOf(line, t) + 1, UndefinedPrefix + t, Info)
    {
      var k :| 0 <= k < |n| && n[k] == d;
      assert tokens[k] in tokens;
    }
  }

  /** Position of a severity in the order a line reports them. */
  function Rank(s: Severity): nat {
    match s
    case Warning => 0
    case Error => 1
    case Info => 2
  }

  /** All diagnostics of `ds` carry line number `n`. */
  ghost predicate AllOnLine(ds: seq<Diagnostic>, n: int) {
    forall j :: 0 <= j < |ds| ==> ds[j].line == n
  }

  /** The severities of `ds` come warning first, then error, then notes. */
  ghost predicate RankSorted(ds: seq<Diagnostic>) {
    forall j, k :: 0 <= j < k < |ds| ==> Rank(ds[j].severity) <= Rank(ds[k].severity)
  }

  /** A line's three groups: a warning, an error, then notes, all on one
      line, in that rank order once concatenated. */
  lemma GroupsShape(b: seq<Diagnostic>, e: seq<Diagnostic>, c: seq<Diagnostic>, n: int)
    requires forall d :: d in b ==> d.line == n && d.severity == Warning
    requires forall d :: d in e ==> d.line == n && d.severity == Error
    requires forall d :: d in c ==> d.line == n && d.severity == Info
    ensures AllOnLine(b + e + c, n) && RankSorted(b + e + c)
  {
    var all := b + e + c;
    assert forall j :: 0 <= j < |b| ==> all[j] == b[j] && all[j] in b;
    assert forall j :: |b| <= j < |b| + |e| ==> all[j] == e[j - |b|] && all[j] in e;
    assert forall j :: |b| + |e| <= j < |all| ==> all[j] == c[j - |b| - |e|] && all[j] in c;
  }

  /** Every diagnostic of a line carries that line's number, and they come
      warning first, then error, then notes. */
  lemma LineDiagnosticsShape(lines: seq<string>, index: nat)
    requires index < |lines|
    ensures AllOnLine(LineDiagnostics(lines, index), index + 1)
    ensures RankSorted(LineDiagnostics(lines, index))
  {
    var b := BraceDiagnostics(lines[index], index);
    var e := MissingEndDiagnostics(lines, index);
    var c := CommandDiagnostics(lines[index], index, CommandTokens(lines[index]));
    assert LineDiagnostics(lines, index) == b + e + c;
    GroupsShape(b, e, c, index + 1);
  }

  /** Diagnostics sorted by line, with line numbers in 1..n and, within a
      line, in the order warning, error, note. */
  ghost predicate Ordered(ds: seq<Diagnostic>, n: int) {
    && (forall j :: 0 <= j < |ds| ==> 1 <= ds[j].line <= n)
    && (forall j, k :: 0 <= j < k < |ds| ==> ds[j].line <= ds[k].line)
    && (forall j, k :: 0 <= j < k < |ds| && ds[j].line == ds[k].line ==> Rank(ds[j].severity) <= Rank(ds[k].severity))
  }

  lemma OrderedAppendLine(p: seq<Diagnostic>, l: seq<Diagnostic>, n: int)
    requires n >= 1 && Ordered(p, n - 1) && AllOnLine(l, n) && RankSorted(l)
    ensures Ordered(p + l, n)
  {
    var all := p + l;
    assert forall j :: |p| <= j < |all| ==> all[j] == l[j - |p|];
    assert forall j :: 0 <= j < |p| ==> all[j] == p[j];
  }

  /** Groups that each sit on their own line, in line order, concatenate to
      an ordered list. */
  lemma {:induction false} ConcatOrdered(groups: seq<seq<Diagnostic>>)
    requires forall i :: 0 <= i < |groups| ==> AllOnLine(groups[i], i + 1) && RankSorted(groups[i])
    ensures Ordered(Concat(groups), |groups|)
    decreases |groups|
  {
    if groups != [] {
      var init := groups[..|groups| - 1];
      ConcatOrdered(init);
      OrderedAppendLine(Concat(init), groups[|groups| - 1], |groups|);
    }
  }

  lemma PerLineShape(lines: seq<string>)
    ensures forall i :: 0 <= i < |lines| ==> AllOnLine(PerLine(lines)[i], i + 1) && RankSorted(PerLine(lines)[i])
  {
    forall i | 0 <= i < |lines|
      ensures AllOnLine(PerLine(lines)[i], i + 1) && RankSorted(PerLine(lines)[i])
    {
      LineDiagnosticsShape(lines, i);
    }
  }

  /** The whole output is sorted by line, every line number lies in
      1..number of lines, and within a line the brace warning comes first,
      then the missing-`\end` error, then the notes. */
  lemma ValidateOrdered(lines: seq<string>)
    ensures Ordered(Validate(lines), |lines|)
  {
    PerLineShape(lines);
    ConcatOrdered(PerLine(lines));
  }

  /** The diagnostics of `ds` that carry line number `n`, in order. */
  function OnLine(ds: seq<Diagnostic>, n: int): seq<Diagnostic> {
    if ds == [] then [] else (if ds[0].line == n then [ds[0]] else []) + OnLine(ds[1..], n)
  }

  lemma {:induction false} OnLineMembers(ds: seq<Diagnostic>, n: int)
    ensures forall d :: d in OnLine(ds, n) <==> d in ds && d.line == n
  {
    if ds != [] {
      OnLineMembers(ds[1..], n);
      assert ds == [ds[0]] + ds[1..];
    }
  }

  lemma {:induction false} OnLineAppend(a: seq<Diagnostic>, b: seq<Diagnostic>, n: int)
    ensures OnLine(a + b, n) == OnLine(a, n) + OnLine(b, n)
  {
    if a == [] {
      assert a + b == b;
    } else {
      var head := if a[0].line == n then [a[0]] else [];
      calc {
        OnLine(a + b, n);
        == { assert (a + b)[0] == a[0]; assert (a + b)[1..] == a[1..] + b; }
        head + OnLine(a[1..] + b, n);
        == { OnLineAppend(a[1..], b, n); }
        head + (OnLine(a[1..], n) + OnLine(b, n));
        ==
        OnLine(a, n) + OnLine(b, n);
      }
    }
  }

  lemma {:induction false} OnLineAll(ds: seq<Diagnostic>, n: int)
    requires AllOnLine(ds, n)
    ensures OnLine(ds, n) == ds
  {
    if ds != [] {
      OnLineAll(ds[1..], n);
    }
  }

  lemma {:induction false} OnLineNone(ds: seq<Diagnostic>, n: int, m: int)
    requires AllOnLine(ds, m) && m != n
    ensures OnLine(ds, n) == []
  {
    if ds != [] {
      OnLineNone(ds[1..], n, m);
    }
  }

  /** Appending one line's diagnostics adds them to that line's selection
      and to no other. */
  lemma OnLineStep(p: seq<Diagnostic>, l: seq<Diagnostic>, target: int, n: int)
    requires AllOnLine(l, n)
    ensures OnLine(p + l, target) == OnLine(p, target) + (if target == n then l else [])
  {
    OnLineAppend(p, l, target);
    if target == n {
      OnLineAll(l, n);
    } else {
      OnLineNone(l, target, n);
    }
  }

  /** Selecting line `i + 1` from the concatenation gives back group `i`. */
  lemma {:induction false} OnLineOfConcat(groups: seq<seq<Diagnostic>>, i: nat)
    requires forall k :: 0 <= k < |groups| ==> AllOnLine(groups[k], k + 1)
    ensures OnLine(Concat(groups), i + 1) == if i < |groups| then groups[i] else []
    decreases |groups|
  {
    if groups != [] {
      var n := |groups|;
      var init := groups[..n - 1];
      assert forall k :: 0 <= k < |init| ==> init[k] == groups[k];
      OnLineOfConcat(init, i);
      assert Concat(groups) == Concat(init) + groups[n - 1];
      OnLineStep(Concat(init), groups[n - 1], i + 1, n);
      if i < n - 1 {
        assert OnLine(Concat(init), i + 1) + [] == groups[i];
      } else if i == n - 1 {
        assert OnLine(Concat(init), i + 1) == [];
      }
    }
  }

  /** The diagnostics for line `i + 1` are exactly those that line produces,
      in the order it produces them. */
  lemma DiagnosticsOfLine(lines: seq<string>, i: nat)
    requires i < |lines|
    ensures OnLine(Validate(lines), i + 1) == LineDiagnostics(lines, i)
    ensures forall d :: d in Validate(lines) && d.line == i + 1 <==> d in LineDiagnostics(lines, i)
  {
    LineSliceOfValidate(lines, i);
    OnLineMembers(Validate(lines), i + 1);
  }

  lemma LineSliceOfValidate(lines: seq<string>, i: nat)
    requires i < |lines|
    ensures OnLine(Validate(lines), i + 1) == LineDiagnostics(lines, i)
  {
    PerLineShape(lines);
    OnLineOfConcat(PerLine(lines), i);
  }

  /** A line draws the brace warning, at column 1, exactly when its counts
      of `{` and `}` differ; no other warning is ever produced. */
  lemma BraceWarningIff(lines: seq<string>, i: nat)
    requires i < |lines|
    ensures Diagnostic(i + 1, 1, BraceMessage, Warning) in Validate(lines)
      <==> CountChar(lines[i], '{') != CountChar(lines[i], '}')
    ensures forall d :: d in Validate(lines) && d.line == i + 1 && d.severity == Warning ==>
      d == Diagnostic(i + 1, 1, BraceMessage, Warning)
  {
    DiagnosticsOfLine(lines, i);
    LineWarningsAreBrace(lines, i);
  }

  /** The only warning a line produces is its brace warning. */
  lemma LineWarningsAreBrace(lines: seq<string>, i: nat)
    requires i < |lines|
    ensures forall d :: d in LineDiagnostics(lines, i) && d.severity == Warning <==>
      d in BraceDiagnostics(lines[i], i)
  {
    var m := MissingEndDiagnostics(lines, i);
    assert forall d :: d in m ==> d.severity == Error;
  }

  /** A line draws the missing-`\end` error exactly when it holds a
      `\begin{NAME}` with non-empty NAME and no later line holds any
      `\end{`; the error names that environment. */
  lemma MissingEndIff(lines: seq<string>, i: nat)
    requires i < |lines|
    ensures (exists d :: d in Validate(lines) && d.line == i + 1 && d.severity == Error)
      <==> MissingEndAt(lines, i)
    ensures MissingEndAt(lines, i) ==>
      Diagnostic(i + 1, 1, "Missing \\end{" + BeginName(lines[i]).value + "}", Error) in Validate(lines)
  {
    DiagnosticsOfLine(lines, i);
    var l := LineDiagnostics(lines, i);
    if MissingEndAt(lines, i) {
      assert l[|BraceDiagnostics(lines[i], i)|].severity == Error;
    }
  }

  /** The diagnostics of line `i + 1` are its brace warning, its
      missing-`\end` error, then one note per reported token in token
      order. */
  lemma NotesInOrder(lines: seq<string>, i: nat)
    requires i < |lines|
    ensures OnLine(Validate(lines), i + 1) ==
      BraceDiagnostics(lines[i], i) + MissingEndDiagnostics(lines, i)
        + NotesFor(lines[i], i, FlaggedTokens(CommandTokens(lines[i])))
  {
    DiagnosticsOfLine(lines, i);
    CommandDiagnosticsAreNotes(lines[i], i, CommandTokens(lines[i]));
  }

  /** Every token of a line that is neither known nor a single lower-case
      letter is reported, at column one past the first occurrence of its
      text. */
  lemma FlaggedTokenNoted(lines: seq<string>, i: nat, t: string)
    requires i < |lines| && t in CommandTokens(lines[i]) && Flagged(t)
    ensures Diagnostic(i + 1, IndexOf(lines[i], t) + 1, UndefinedPrefix + t, Info) in Validate(lines)
  {
    var line := lines[i];
    var f := FlaggedTokens(CommandTokens(line));
    var k :| 0 <= k < |f| && f[k] == t;
    var d := Diagnostic(i + 1, IndexOf(line, t) + 1, UndefinedPrefix + t, Info);
    CommandDiagnosticsAreNotes(line, i, CommandTokens(line));
    assert NotesFor(line, i, f)[k] == d;
    var b, e, c := BraceDiagnostics(line, i), MissingEndDiagnostics(lines, i), CommandDiagnostics(line, i, CommandTokens(line));
    assert LineDiagnostics(lines, i) == b + e + c;
    assert d in c;
    DiagnosticsOfLine(lines, i);
  }

  /** Each note on line `i + 1` names a reported token of that line, at
      column one past the first occurrence of its text, within the line. */
  lemma CommandNotes(lines: seq<string>, i: nat)
    requires i < |lines|
    ensures forall d :: d in Validate(lines) && d.line == i + 1 && d.severity == Info ==>
      exists t :: t in CommandTokens(lines[i]) && Flagged(t) &&
        d.message == UndefinedPrefix + t && d.column == IndexOf(lines[i], t) + 1 &&
        1 <= d.column <= |lines[i]|
  {
    InfoOnLineAreNotes(lines, i);
    forall d | d in Validate(lines) && d.line == i + 1 && d.severity == Info
      ensures exists t :: (t in CommandTokens(lines[i]) && Flagged(t) &&
        d.message == UndefinedPrefix + t && d.column == IndexOf(lines[i], t) + 1 &&
        1 <= d.column <= |lines[i]|)
    {
      NoteNamesReportedToken(lines[i], i, d);
    }
  }

  /** One note of a line names a reported token of it, within the line. */
  lemma NoteNamesReportedToken(line: string, i: nat, d: Diagnostic)
    requires d in NotesFor(line, i, FlaggedTokens(CommandTokens(line)))
    ensures exists t :: (t in CommandTokens(line) && Flagged(t) &&
      d.message == UndefinedPrefix + t && d.column == IndexOf(line, t) + 1 &&
      1 <= d.column <= |line|)
  {
    var f := FlaggedTokens(CommandTokens(line));
    NotesForMembers(line, i, f);
    var t :| t in f && d == Diagnostic(i + 1, IndexOf(line, t) + 1, UndefinedPrefix + t, Info);
    assert t in CommandTokens(line) && Flagged(t);
    TokenWithinLine(line, t);
  }

  lemma TokenWithinLine(line: string, t: string)
    requires t in CommandTokens(line)
    ensures 0 <= IndexOf(line, t) && IndexOf(line, t) + |t| <= |line| && |t| >= 2
  {
    TokensOccur(line, 0);
  }

  /** The notes on line `i + 1` all come from that line's note list. */
  lemma InfoOnLineAreNotes(lines: seq<string>, i: nat)
    requires i < |lines|
    ensures forall d :: d in Validate(lines) && d.line == i + 1 && d.severity == Info ==>
      d in NotesFor(lines[i], i, FlaggedTokens(CommandTokens(lines[i])))
  {
    var b, e := BraceDiagnostics(lines[i], i), MissingEndDiagnostics(lines, i);
    var n := NotesFor(lines[i], i, FlaggedTokens(CommandTokens(lines[i])));
    NotesInOrder(lines, i);
    OnLineMembers(Validate(lines), i + 1);
    assert forall d :: d in b ==> d.severity == Warning;
    assert forall d :: d in e ==> d.severity == Error;
    assert forall d :: d in b + e + n ==> d in b || d in e || d in n;
  }

  /** Line `i + 1` carries exactly as many notes as its line has reported
      tokens. */
  lemma NoteCount(lines: seq<string>, i: nat)
    requires i < |lines|
    ensures SeverityCount(OnLine(Validate(lines), i + 1), Info) == |FlaggedTokens(CommandTokens(lines[i]))|
  {
    var line := lines[i];
    var b, e := BraceDiagnostics(line, i), MissingEndDiagnostics(lines, i);
    var n := NotesFor(line, i, FlaggedTokens(CommandTokens(line)));
    NotesInOrder(lines, i);
    SeverityCountAppend(b + e, n, Info);
    SeverityCountAppend(b, e, Info);
    SeverityCountAll(n, Info);
  }

  lemma EmptyBeginHasNoName()
    ensures BeginName("\\begin{}") == None
  {
    var line := "\\begin{}";
    forall p', name | 0 <= p' ensures !BeginMatchAt(line, p', name) {
    }
  }

  lemma EmptyBeginTokens()
    ensures CommandTokens("\\begin{}") == ["\\begin"]
  {
    var line := "\\begin{}";
    assert CommandsFrom(line, 8) == [];
    assert CommandsFrom(line, 7) == [];
    assert CommandsFrom(line, 6) == [];
    assert LetterRun(line, 6) == 0;
    assert LetterRun(line, 5) == 1;
    assert LetterRun(line, 4) == 2;
    assert LetterRun(line, 3) == 3;
    assert LetterRun(line, 2) == 4;
    assert LetterRun(line, 1) == 5;
    assert CommandStart(line, 0);
    assert CommandAt(line, 0) == line[0..6] == "\\begin";
  }

  lemma EmptyBeginLine()
    ensures LineDiagnostics(["\\begin{}"], 0) == []
  {
    var line := "\\begin{}";
    EmptyBeginHasNoName();
    EmptyBeginTokens();
    EmptyBeginBalanced();
    assert MissingEndDiagnostics([line], 0) == [];
    EmptyBeginNoNote();
  }

  lemma EmptyBeginBalanced()
    ensures BraceDiagnostics("\\begin{}", 0) == []
  {
    EmptyBeginCount('{');
    EmptyBeginCount('}');
  }

  lemma EmptyBeginCount(c: char)
    requires c == '{' || c == '}'
    ensures CountChar("\\begin{}", c) == 1
  {
    assert "\\begin{}" == "\\begin" + "{}";
    CountCharAppend("\\begin", "{}", c);
    BeginWordHasNoBrace(c);
    BracePairCount(c);
  }

  lemma BeginWordHasNoBrace(c: char)
    requires c == '{' || c == '}'
    ensures CountChar("\\begin", c) == 0
  {
    assert c !in "\\begin";
  }

  lemma BracePairCount(c: char)
    requires c == '{' || c == '}'
    ensures CountChar("{}", c) == 1
  {
    assert "{}"[1..] == "}" && "}"[1..] == [];
  }

  lemma EmptyBeginNoNote()
    ensures CommandDiagnostics("\\begin{}", 0, ["\\begin"]) == []
  {
    BeginIsKnown();
    assert InfoFor("\\begin{}", 0, "\\begin") == [];
  }

  lemma BeginIsKnown()
    ensures !Flagged("\\begin")
  {
  }

  /** An empty environment name does not match, so a line holding only
      `\begin{}` produces nothing at all. */
  lemma EmptyBeginIgnored()
    ensures Validate(["\\begin{}"]) == []
  {
    EmptyBeginLine();
    assert PerLine(["\\begin{}"]) == [[]];
  }

  /** `\` followed by one or more letters: the shape of every token. */
  predicate IsToken(t: string) {
    |t| >= 2 && t[0] == '\\' && forall j :: 1 <= j < |t| ==> IsLetter(t[j])
  }

  /** A token on its own is its line's only token. */
  lemma TokenAlone(t: string)
    requires IsToken(t)
    ensures CommandTokens(t) == [t]
  {
    LetterRunToEnd(t, 1);
    assert CommandStart(t, 0);
    assert CommandAt(t, 0) == t;
    assert CommandsFrom(t, |t|) == [];
    assert CommandsFrom(t, 0) == [t] + CommandsFrom(t, |t|);
  }

  /** A token on its own holds no brace and no `\begin{`. */
  lemma TokenHasNoBrace(t: string)
    requires IsToken(t)
    ensures CountChar(t, '{') == 0 && CountChar(t, '}') == 0
    ensures !Includes(t, BeginMarker)
  {
    forall r | OccursAt(t, BeginMarker, r) ensures t[r + 6] == '{' {
      assert t[r..r + 7][6] == t[r + 6];
    }
    assert '{' !in t && '}' !in t;
  }

  /** A line holding just one token is reported exactly when the token is
      neither known nor a single lower-case letter, and then at column 1. */
  lemma TokenAloneOnLine(t: string)
    requires IsToken(t)
    ensures Validate([t]) == if Flagged(t) then [Diagnostic(1, 1, UndefinedPrefix + t, Info)] else []
  {
    TokenAlone(t);
    TokenHasNoBrace(t);
    assert IndexOf(t, t) == 0 by {
      assert OccursAt(t, t, 0);
    }
    assert CommandDiagnostics(t, 0, [t]) == InfoFor(t, 0, t) by {
      assert [t][..0] == [];
    }
    assert LineDiagnostics([t], 0) == InfoFor(t, 0, t);
    assert PerLine([t]) == [LineDiagnostics([t], 0)];
    assert Concat([LineDiagnostics([t], 0)]) == Concat([]) + LineDiagnostics([t], 0);
  }

  // ---------------------------------------------------------------------
  // The status badge
  // ---------------------------------------------------------------------

  datatype Badge = Compiling | Errors(count: nat) | Warnings(count: nat) | NoIssues

  /** `errors.filter(e => e.severity === sev).length`. */
  function SeverityCount(ds: seq<Diagnostic>, sev: Severity): (n: nat)
    ensures n <= |ds|
    ensures n == 0 <==> forall d :: d in ds ==> d.severity != sev
  {
    if ds == [] then 0 else (if ds[0].severity == sev then 1 else 0) + SeverityCount(ds[1..], sev)
  }

  /** Counting distributes over concatenation. */
  lemma {:induction false} SeverityCountAppend(a: seq<Diagnostic>, b: seq<Diagnostic>, sev: Severity)
    ensures SeverityCount(a + b, sev) == SeverityCount(a, sev) + SeverityCount(b, sev)
  {
    if a == [] {
      assert a + b == b;
    } else {
      assert (a + b)[1..] == a[1..] + b;
      SeverityCountAppend(a[1..], b, sev);
    }
  }

  /** A single diagnostic counts once exactly when it has that severity. */
  lemma SeverityCountOne(d: Diagnostic, sev: Severity)
    ensures SeverityCount([d], sev) == if d.severity == sev then 1 else 0
  {
    assert [d][1..] == [];
  }

  /** When every diagnostic has that severity, all of them are counted. */
  lemma {:induction false} SeverityCountAll(ds: seq<Diagnostic>, sev: Severity)
    requires forall d :: d in ds ==> d.severity == sev
    ensures SeverityCount(ds, sev) == |ds|
  {
    if ds != [] {
      assert forall d :: d in ds[1..] ==> d in ds;
      SeverityCountAll(ds[1..], sev);
    }
  }

  /** `getStatusBadge`: compiling first, then errors, then warnings. */
  function StatusBadge(isCompiling: bool, errors: seq<Diagnostic>): (b: Badge)
    ensures b == Compiling <==> isCompiling
    ensures b.Errors? <==> !isCompiling && exists d :: d in errors && d.severity == Error
    ensures b.Warnings? <==>
      (!isCompiling && (forall d :: d in errors ==> d.severity != Error) && exists d :: d in errors && d.severity == Warning)
    ensures b == NoIssues <==> !isCompiling && forall d :: d in errors ==> d.severity == Info
    ensures b.Errors? || b.Warnings? ==> 0 < b.count <= |errors|
    ensures b.Errors? ==> b.count == SeverityCount(errors, Error)
    ensures b.Warnings? ==> b.count == SeverityCount(errors, Warning)
  {
    var errorCount := SeverityCount(errors, Error);
    var warningCount := SeverityCount(errors, Warning);
    if isCompiling then Compiling
    else if errorCount > 0 then Errors(errorCount)
    else if warningCount > 0 then Warnings(warningCount)
    else NoIssues
  }

  /** After validation, the badge shows errors exactly when some line has a
      `\begin{NAME}` that no later line closes. */
  lemma BadgeShowsErrorsIff(lines: seq<string>)
    ensures StatusBadge(false, Validate(lines)).Errors? <==> exists i :: 0 <= i < |lines| && MissingEndAt(lines, i)
  {
    var v := Validate(lines);
    ValidateOrdered(lines);
    if exists i :: 0 <= i < |lines| && MissingEndAt(lines, i) {
      var i :| 0 <= i < |lines| && MissingEndAt(lines, i);
      MissingEndIff(lines, i);
    }
    if exists d :: d in v && d.severity == Error {
      var d :| d in v && d.severity == Error;
      var i := d.line - 1;
      MissingEndIff(lines, i);
    }
  }
}
