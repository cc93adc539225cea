# ResumeNhanced core, modelled in Dafny

ResumeNhanced is a résumé assistant. Its backend asks the user tailoring
questions about a résumé and a job post and keeps each conversation as a
session in memory. Its frontend has a LaTeX editor that checks the document
line by line and shows a status badge, and a workspace that counts the
words of the LaTeX text. This project models three parts of that code:

- **`SessionStore`** (`SessionManager.dfy`) models the backend's
  `SessionManager`. It is a class whose one field is the dictionary from
  session id to session record. Its methods create, answer, delete and clean
  up sessions. Its `reads` functions look up a session and summarise it.
  Each method is specified by `Step`, a pure transition function on the
  dictionary. The lemmas about `Step`, `Run`, `NextQuestion` and `Progress`
  state what the store promises: questions are asked in order, progress is
  printed in decimal and reads back as both counts, cleanup is idempotent, and `current_question_index` never
  moves.
- **`LatexValidator`** (`LatexEditor.dfy`) models `validateLaTeX` and the
  counting behind `getStatusBadge`. `ValidateLaTeX` is imperative: an outer
  loop over the lines, with an inner loop over each line's command tokens.
  It is proved equal to the specification function `Validate`, and
  properties of `Validate` are proved as lemmas. The brace warning and the
  missing-`\end` error are characterized in both directions. The notes on
  commands are characterized exactly: one note per reported token, in token
  order, repeats included. The lemmas also cover the ordering of the output,
  the leftmost `\begin{NAME}` capture, and the `\begin{}` edge case.
- **`WordCount`** (`WordCount.dfy`) models the word count in
  `handleLatexChange`. Each regular expression becomes a hand-written
  left-to-right scanner. The count is proved equal to a direct word
  scanner, and lemmas cover plain text, whitespace at either end, command
  removal, and brace groups that are not removed.
- **`Text`** (`Text.dfy`) holds the string operations the three modules
  share. These are JavaScript's `indexOf`/`includes` (which return -1 or
  false when nothing is found), character counting, letter runs, and
  decimal rendering of a count together with its parse-back.

The model follows the code where it differs from the design description of
the repository. The design says `add_answer` refuses an answer once every
question is answered. The code has no such guard and appends anyway. The
model appends, and `SessionStore.FullRoundThenOverflow` proves that the
extra answer is accepted.

## Model

| member | source | states |
|---|---|---|
| SessionStore.SessionManager.constructor | BACKEND/session_manager.py:13-14 | the store starts empty |
| SessionStore.SessionManager.CreateSession | BACKEND/session_manager.py:16-29 | the drawn id now maps to a record with the given resume, job post and questions, no answers, index 0 and the given timestamp; every other id is unchanged, and an existing record under the same id is overwritten |
| SessionStore.SessionManager.GetSession | BACKEND/session_manager.py:31-35 | the error is 404 "Session not found" exactly when the id is absent; otherwise the result is the stored record |
| SessionStore.SessionManager.AddAnswer | BACKEND/session_manager.py:37-41 | an unknown id gives 404 and leaves the store unchanged; a known id gets the answer appended with no bound check, the updated record is returned, and no other record or key changes |
| SessionStore.FullRoundThenOverflow | BACKEND/session_manager.py:37-51 | after one answer per question the session is complete and has no next question; one more answer is still accepted and leaves more answers than questions |
| SessionStore.AnswerAllAppends | BACKEND/session_manager.py:37-41 | repeated `add_answer` calls append the answers in call order and change no other field |
| SessionStore.CompleteExactlyAfterRound | BACKEND/session_manager.py:43-51 | starting from no answers, `is_complete` holds exactly once at least as many answers as questions have been added, and a next question exists exactly before that |
| SessionStore.CompleteIsStable | BACKEND/session_manager.py:43-45 | a complete session stays complete whatever is appended |
| SessionStore.NextQuestion | BACKEND/session_manager.py:47-51 | no question exactly when answers are at least as many as questions; otherwise the result is one of the session's questions |
| SessionStore.QuestionsAskedInOrder | BACKEND/session_manager.py:47-51 | while answers fit, the question shown before the k-th answer is question number (answers so far + k), so each question is asked once, in stored order |
| SessionStore.Progress | BACKEND/session_manager.py:62 | the progress text is the answer count, `/`, the question count, each in decimal without leading zeros, and it parses back to both counts |
| SessionStore.ProgressParses | BACKEND/session_manager.py:62 | reading a progress text back gives the two counts it was made from |
| Text.NatToString | BACKEND/session_manager.py:62 | the decimal form of a count is all digits and starts with `0` only for zero itself, as Python prints an integer |
| Text.ParseNatToString | BACKEND/session_manager.py:62 | reading the decimal form back gives the count |
| SessionStore.SessionManager.GetSessionStatus | BACKEND/session_manager.py:53-64 | 404 exactly when the id is absent; otherwise the status carries the id, questions, answers and timestamp of the record, the next question, and the progress text `answers/questions` in decimal, which reads back as both counts |
| SessionStore.SessionManager.DeleteSession | BACKEND/session_manager.py:66-70 | an unknown id gives 404 and changes nothing; a known id is removed and nothing else changes |
| SessionStore.SessionManager.CleanupSession | BACKEND/session_manager.py:72-75 | the id is absent afterwards, whether or not it was present, and nothing else changes |
| SessionStore.CleanupIdempotent | BACKEND/session_manager.py:72-75 | cleanup leaves the id absent, and a second cleanup changes nothing more |
| SessionStore.RunKeepsIndexUntouched | BACKEND/session_manager.py:20-27 | no sequence of operations moves any record's `current_question_index` away from 0 |
| LatexValidator.SplitLines | FRONTEND/src/components/LaTeXEditor.tsx:60 | one line more than there are newlines, and no line contains a newline |
| LatexValidator.JoinSplitLines | FRONTEND/src/components/LaTeXEditor.tsx:60 | joining the lines with newlines gives back the text |
| LatexValidator.ValidateLaTeX | FRONTEND/src/components/LaTeXEditor.tsx:58-113 | the loop's output equals `Validate` of the text's lines, whose properties the lemmas below prove |
| LatexValidator.CheckLine | FRONTEND/src/components/LaTeXEditor.tsx:62-110 | one callback pushes exactly that line's diagnostics after the ones collected so far |
| LatexValidator.PushCommandNotes | FRONTEND/src/components/LaTeXEditor.tsx:99-108 | the inner loop pushes one note per reported token, in token order, after the earlier diagnostics |
| LatexValidator.CommandsFromIsEvery | FRONTEND/src/components/LaTeXEditor.tsx:90 | the resume-after-match token scanner finds exactly one token per backslash-letter position |
| LatexValidator.TokensOccur | FRONTEND/src/components/LaTeXEditor.tsx:90 | every token is a backslash followed by one or more letters, and it occurs in the line |
| LatexValidator.BeginNameFrom | FRONTEND/src/components/LaTeXEditor.tsx:78 | a name is found only from a `\begin{NAME}` match, with NAME non-empty and free of `}`, and no match starts earlier; no name is found when there is no match |
| LatexValidator.BeginMatchUnique | FRONTEND/src/components/LaTeXEditor.tsx:78 | at one position at most one name matches: it runs up to the first `}` |
| LatexValidator.BeginNameIsLeftmost | FRONTEND/src/components/LaTeXEditor.tsx:78 | the capture is the name of the leftmost match, as a non-global `match` returns |
| LatexValidator.SomeIncludesIff | FRONTEND/src/components/LaTeXEditor.tsx:77 | the later-lines check holds exactly when some line includes the pattern |
| LatexValidator.ValidateOrdered | FRONTEND/src/components/LaTeXEditor.tsx:62-112 | the output is sorted by line number, every line number lies between 1 and the number of lines, and within a line the warning comes first, then the error, then the notes |
| LatexValidator.DiagnosticsOfLine | FRONTEND/src/components/LaTeXEditor.tsx:62-110 | the diagnostics carrying line number i+1 are exactly those line i produces, in order |
| LatexValidator.BraceWarningIff | FRONTEND/src/components/LaTeXEditor.tsx:63-74 | a line gets the brace warning at column 1 exactly when its counts of `{` and `}` differ, and it gets no other warning |
| LatexValidator.MissingEndIff | FRONTEND/src/components/LaTeXEditor.tsx:76-87 | a line gets an error exactly when it includes `\begin{`, a non-empty name can be captured, and no later line includes `\end{`; the error names the captured environment |
| LatexValidator.EmptyBeginIgnored | FRONTEND/src/components/LaTeXEditor.tsx:76-108 | a lone `\begin{}` line produces no diagnostic at all, because the empty name does not match and `\begin` is a known command |
| LatexValidator.CommandNotes | FRONTEND/src/components/LaTeXEditor.tsx:89-108 | every note names a token of its line that is neither known nor a single lower-case letter, at column one past that text's first occurrence, within the line |
| LatexValidator.FlaggedTokenNoted | FRONTEND/src/components/LaTeXEditor.tsx:89-108 | every token of a line that is neither known nor a single lower-case letter gets its note, at column one past the first occurrence of its text |
| LatexValidator.CommandDiagnosticsAreNotes | FRONTEND/src/components/LaTeXEditor.tsx:99-108 | the notes of a line are exactly one note per reported token, in token order, so a repeated token is noted once per occurrence |
| LatexValidator.NotesInOrder | FRONTEND/src/components/LaTeXEditor.tsx:62-110 | the diagnostics of line i+1 are its brace warning, its missing-`\end` error, then one note per reported token in token order |
| LatexValidator.NoteCount | FRONTEND/src/components/LaTeXEditor.tsx:89-108 | line i+1 carries exactly as many notes as the line has reported tokens |
| LatexValidator.TokenAlone | FRONTEND/src/components/LaTeXEditor.tsx:90 | a token on its own is the only token found in it |
| LatexValidator.TokenAloneOnLine | FRONTEND/src/components/LaTeXEditor.tsx:92-108 | a line holding one token is reported, at column 1, exactly when the token is neither in the known list nor `\` and one lower-case letter; otherwise the line produces nothing |
| LatexValidator.CommandDiagnosticsNameTokens | FRONTEND/src/components/LaTeXEditor.tsx:99-107 | each note is built from one reported token: its message, its column and the info severity |
| LatexValidator.SeverityCount | FRONTEND/src/components/LaTeXEditor.tsx:127-128 | the count is at most the number of diagnostics, and it is zero exactly when no diagnostic has that severity |
| LatexValidator.SeverityCountAppend | FRONTEND/src/components/LaTeXEditor.tsx:127-128 | counting over two lists joined is the sum of the two counts |
| LatexValidator.SeverityCountOne | FRONTEND/src/components/LaTeXEditor.tsx:127-128 | one diagnostic counts 1 when it has the severity and 0 otherwise; with additivity this fixes the count as the number of matching diagnostics |
| LatexValidator.SeverityCountAll | FRONTEND/src/components/LaTeXEditor.tsx:127-128 | when every diagnostic has the severity, all of them are counted |
| LatexValidator.StatusBadge | FRONTEND/src/components/LaTeXEditor.tsx:126-143 | compiling wins; otherwise errors are shown exactly when some diagnostic is an error, warnings exactly when there is no error but some warning, and "no issues" exactly when everything is informational; a shown count is the number of error, or warning, diagnostics, so it is positive and at most the number of diagnostics |
| LatexValidator.BadgeShowsErrorsIff | FRONTEND/src/components/LaTeXEditor.tsx:58-143 | after validation the badge shows errors exactly when some line has a `\begin{NAME}` that no later line closes |
| WordCount.WordCount | FRONTEND/src/components/LaTeXAIWorkspace.tsx:48-53 | at most one word per two characters of the content, rounded up, since every word but the last needs a separator |
| WordCount.CountWordsBound | FRONTEND/src/components/LaTeXAIWorkspace.tsx:51-53 | the scanner counts at most one word per two characters, rounded up, and at most one per two when the text starts with whitespace |
| WordCount.StripCommands | FRONTEND/src/components/LaTeXAIWorkspace.tsx:49 | removal never lengthens the text |
| WordCount.StripLeavesPlainText | FRONTEND/src/components/LaTeXAIWorkspace.tsx:49 | text without a backslash holds no command and is left unchanged |
| WordCount.StripKeepsCharacters | FRONTEND/src/components/LaTeXAIWorkspace.tsx:49 | removal introduces no character: every character left over occurs in the input |
| WordCount.BlankBraces | FRONTEND/src/components/LaTeXAIWorkspace.tsx:50 | the length is kept; a position is whitespace afterwards exactly when it was whitespace, a brace or a backslash; no brace or backslash remains; plain text is unchanged |
| WordCount.GroupEnd | FRONTEND/src/components/LaTeXAIWorkspace.tsx:49 | an optional `[...]` or `{...}` group ends just past the first closing character after the opening one, and it is absent when there is no opening character or no closing one |
| WordCount.SplitCountsWords | FRONTEND/src/components/LaTeXAIWorkspace.tsx:51-53 | splitting on whitespace runs and dropping empty pieces yields exactly as many words as the direct word scanner counts |
| WordCount.WordCountIsScan | FRONTEND/src/components/LaTeXAIWorkspace.tsx:48-53 | the word count is the scanner's count of the text after commands are removed and braces and backslashes are blanked |
| WordCount.WordCountPlainText | FRONTEND/src/components/LaTeXAIWorkspace.tsx:48-53 | on text with no backslash and no brace, the count is the number of runs of non-whitespace characters |
| WordCount.WordCountLeadingWhitespace | FRONTEND/src/components/LaTeXAIWorkspace.tsx:48-53 | leading whitespace adds no word |
| WordCount.WordCountTrailingWhitespace | FRONTEND/src/components/LaTeXAIWorkspace.tsx:48-53 | trailing whitespace adds no word, including after a command whose group is left open |
| WordCount.StripDropsCommand | FRONTEND/src/components/LaTeXAIWorkspace.tsx:49 | `\name[option]{argument}` is removed whole, and the text after it is processed as if it were not there |
| WordCount.StripDropsBareCommand | FRONTEND/src/components/LaTeXAIWorkspace.tsx:49 | a bare `\name` followed by no letter, `[` or `{` is removed, and the text after it is processed as if it were not there |
| WordCount.StripDropsCommandWithOption | FRONTEND/src/components/LaTeXAIWorkspace.tsx:49 | `\name[option]` with no `{` right after is removed whole, and the text after it is processed as if it were not there |
| WordCount.StripDropsCommandWithArgument | FRONTEND/src/components/LaTeXAIWorkspace.tsx:49 | `\name{argument}` is removed whole, and the text after it is processed as if it were not there |
| WordCount.SecondGroupCounts | FRONTEND/src/components/LaTeXAIWorkspace.tsx:49-53 | only the first brace group goes with a command: in `\name{argument}{word}` the word still counts, and it is the only word |
| WordCount.BracesSeparateWords | FRONTEND/src/components/LaTeXAIWorkspace.tsx:50-53 | leftover braces become spaces, so `first{second}third` is three words |

## Left out

- `uuid.uuid4()` and `datetime.now().isoformat()` are inputs. `CreateSession` takes the session id and the timestamp as parameters. Nothing is proved about id uniqueness; an id already in the store is overwritten, as the dictionary assignment does.
- SessionStore.SessionManager.GetSession: the record is returned as a value. The source returns the stored dictionary itself, and a caller that mutates it changes the store. That aliasing is not modelled.
- The HTTP routers, the AI service, PDF export, configuration and the tests are outside this model. Their only effect here is the `HTTPException(404, ...)` the store raises, which is modelled as an error value.
- The module-level `session_manager` instance and concurrent requests against it are not modelled. Each method is one atomic step.
- The document parser and patch engine described in the repository's design, and the session states around them, do not appear in the session code. They are not part of this model.
- LatexValidator.StatusBadge: the JSX the badge renders is reduced to the chosen case and its count. The icons, CSS classes and the plural "s" are not modelled.
- The 500 ms debounce timer, `setIsCompiling` and the other React state are not modelled. `isCompiling` is a parameter of `StatusBadge`.
- LatexValidator.InfoFor: the column is counted in Unicode characters, while `indexOf` counts UTF-16 code units. Each character outside the Basic Multilingual Plane (an emoji, say) before a token makes the model's column one smaller than the editor's. The same holds for `CommandNotes`, `FlaggedTokenNoted` and `TokenAloneOnLine`.
- The regular-expression class `\s` covers only the ASCII whitespace characters here: space, tab, line feed, carriage return, vertical tab and form feed. JavaScript also treats the Unicode space separators as whitespace.
- LaTeXAIWorkspace's other handlers, the AI chat panel and the resizable panels hold no logic beyond React state. They are not part of this model.
