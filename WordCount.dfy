/** The workspace's word count for LaTeX text: command tokens are removed
    together with one optional `[...]` and one optional `{...}` right after
    them, the remaining braces and backslashes become spaces, and the words
    are the non-empty pieces between runs of whitespace. Each regular
    expression of the original is written here as a left-to-right scanner. */
module WordCount {
  import opened Text

  // ---------------------------------------------------------------------
  // Step 1: `.replace(/\\[a-zA-Z]+(\[[^\]]*\])?(\{[^}]*\})?/g, '')`
  // ---------------------------------------------------------------------

  /** Where an optional group `open [^close]* close` that may start at `i`
      ends: just past the first `close` after the opening character, or `i`
      itself when there is no such group. */
  function GroupEnd(s: string, i: nat, open: char, close: char): (j: nat)
    requires i <= |s|
    ensures i <= j <= |s|
    ensures j > i ==> j >= i + 2 && s[i] == open && s[j - 1] == close
    ensures j > i ==> forall k :: i < k < j - 1 ==> s[k] != close
    ensures j == i ==> i == |s| || s[i] != open || forall k :: i < k < |s| ==> s[k] != close
  {
    if i < |s| && s[i] == open then
      var k := FindChar(s, close, i + 1);
      if k >= 0 then k + 1 else i
    else i
  }

  /** Where the match that starts at a command token ends: the letters, then
      at most one bracket group, then at most one brace group. */
  function CommandMatchEnd(s: string, i: nat): (j: nat)
    requires CommandStart(s, i)
    ensures i + 2 <= j <= |s|
  {
    var afterLetters := i + 1 + LetterRun(s, i + 1);
    GroupEnd(s, GroupEnd(s, afterLetters, '[', ']'), '{', '}')
  }

  /** The text with every match removed; the search resumes right after
      each match. */
  function StripCommands(s: string): (r: string)
    ensures |r| <= |s|
    decreases |s|
  {
    if s == [] then []
    else if CommandStart(s, 0) then StripCommands(s[CommandMatchEnd(s, 0)..])
    else
      assert s == [s[0]] + s[1..];
      [s[0]] + StripCommands(s[1..])
  }

  // ---------------------------------------------------------------------
  // Step 2: `.replace(/[{}\\]/g, ' ')`
  // ---------------------------------------------------------------------

  predicate IsBraceOrBackslash(c: char) {
    c == '{' || c == '}' || c == '\\'
  }

  predicate PlainText(s: string) {
    forall i :: 0 <= i < |s| ==> !IsBraceOrBackslash(s[i])
  }

  /** Braces and backslashes become spaces, so they separate words, and
      nothing else changes. */
  function BlankBraces(s: string): (r: string)
    ensures |r| == |s|
    ensures forall i :: 0 <= i < |s| ==> (IsWhitespace(r[i]) <==> IsWhitespace(s[i]) || IsBraceOrBackslash(s[i]))
    ensures forall c :: c in r ==> !IsBraceOrBackslash(c)
    ensures PlainText(s) ==> r == s
  {
    seq(|s|, i requires 0 <= i < |s| => if IsBraceOrBackslash(s[i]) then ' ' else s[i])
  }

  // ---------------------------------------------------------------------
  // Step 3: `.split(/\s+/).filter(word => word.length > 0)`
  // ---------------------------------------------------------------------

  /** The first whitespace position at or after `from`, or -1. */
  function FindWhitespace(s: string, from: nat): (r: int)
    decreases |s| - from
    ensures r == -1 || (from <= r < |s| && IsWhitespace(s[r]))
    ensures forall i :: from <= i < |s| && (r == -1 || i < r) ==> !IsWhitespace(s[i])
  {
    if from >= |s| then -1
    else if IsWhitespace(s[from]) then from
    else FindWhitespace(s, from + 1)
  }

  /** Length of the run of whitespace that starts at `i`. */
  function WhitespaceRun(s: string, i: nat): (n: nat)
    requires i <= |s|
    ensures i + n <= |s|
    ensures forall j :: i <= j < i + n ==> IsWhitespace(s[j])
    ensures i + n == |s| || !IsWhitespace(s[i + n])
    decreases |s| - i
  {
    if i < |s| && IsWhitespace(s[i]) then 1 + WhitespaceRun(s, i + 1) else 0
  }

  /** The pieces between maximal runs of whitespace, including the empty
      pieces before a leading run and after a trailing one. */
  function SplitOnWhitespace(s: string): (pieces: seq<string>)
    ensures |pieces| >= 1
    decreases |s|
  {
    var k := FindWhitespace(s, 0);
    if k < 0 then [s]
    else [s[..k]] + SplitOnWhitespace(s[k + WhitespaceRun(s, k)..])
  }

  function NonEmpty(pieces: seq<string>): (words: seq<string>)
    ensures |words| <= |pieces|
    ensures forall w :: w in words ==> w in pieces && w != []
  {
    if pieces == [] then []
    else (if pieces[0] != [] then [pieces[0]] else []) + NonEmpty(pieces[1..])
  }

  /** `handleLatexChange`'s word count, composed as the original chains the
      three steps. */
  function WordCount(content: string): (n: nat)
    ensures n <= (|content| + 1) / 2
  {
    var text := BlankBraces(StripCommands(content));
    SplitCountsWords(text);
    CountWordsBound(text);
    |NonEmpty(SplitOnWhitespace(text))|
  }

  // ---------------------------------------------------------------------
  // A direct count of words and its agreement with split-and-filter
  // ---------------------------------------------------------------------

  predicate AllWhitespace(s: string) {
    forall i :: 0 <= i < |s| ==> IsWhitespace(s[i])
  }

  predicate NoWhitespace(s: string) {
    forall i :: 0 <= i < |s| ==> !IsWhitespace(s[i])
  }

  /** Length of the leading run of non-whitespace characters. */
  function WordLength(s: string): (n: nat)
    ensures n <= |s|
    ensures NoWhitespace(s[..n])
    ensures n == |s| || IsWhitespace(s[n])
    decreases |s|
  {
    if s == [] || IsWhitespace(s[0]) then 0 else 1 + WordLength(s[1..])
  }

  /** Scanner: skip whitespace; at anything else count one word and skip
      to its end. */
  function CountWords(s: string): nat
    decreases |s|
  {
    if s == [] then 0
    else if IsWhitespace(s[0]) then CountWords(s[1..])
    else 1 + CountWords(s[WordLength(s)..])
  }

  lemma {:induction false} CountWordsSkipsWhitespace(w: string, t: string)
    requires AllWhitespace(w)
    ensures CountWords(w + t) == CountWords(t)
    decreases |w|
  {
    if w != [] {
      assert (w + t)[0] == w[0];
      assert (w + t)[1..] == w[1..] + t;
      CountWordsSkipsWhitespace(w[1..], t);
    } else {
      assert w + t == t;
    }
  }

  lemma {:induction false} WordLengthOfWord(w: string, t: string)
    requires NoWhitespace(w)
    requires t == [] || IsWhitespace(t[0])
    ensures WordLength(w + t) == |w|
    decreases |w|
  {
    if w != [] {
      assert (w + t)[1..] == w[1..] + t;
      WordLengthOfWord(w[1..], t);
    } else {
      assert w + t == t;
    }
  }

  /** A word followed by the end or by whitespace counts once. */
  lemma CountWordsOfWord(w: string, t: string)
    requires |w| > 0 && NoWhitespace(w)
    requires t == [] || IsWhitespace(t[0])
    ensures CountWords(w + t) == 1 + CountWords(t)
  {
    WordLengthOfWord(w, t);
    assert (w + t)[|w|..] == t;
  }

  lemma NonEmptyCons(p: string, ps: seq<string>)
    ensures NonEmpty([p] + ps) == (if p != [] then [p] else []) + NonEmpty(ps)
  {
    assert ([p] + ps)[1..] == ps;
  }

  /** The scanner's count of text that begins with a word or with
      whitespace, followed by a whitespace run and the rest. */
  lemma CountWordsAtSplit(s: string, k: nat, run: nat)
    requires k + run <= |s| && run > 0
    requires NoWhitespace(s[..k])
    requires forall j :: k <= j < k + run ==> IsWhitespace(s[j])
    ensures CountWords(s) == (if k > 0 then 1 else 0) + CountWords(s[k + run..])
  {
    var rest := s[k + run..];
    assert s[k..] == s[k..k + run] + rest;
    CountWordsSkipsWhitespace(s[k..k + run], rest);
    if k > 0 {
      assert s == s[..k] + s[k..];
      CountWordsOfWord(s[..k], s[k..]);
    } else {
      assert s[k..] == s;
    }
  }

  /** Splitting on whitespace runs and dropping empty pieces yields exactly
      as many words as the scanner counts. */
  lemma {:induction false} SplitCountsWords(s: string)
    ensures |NonEmpty(SplitOnWhitespace(s))| == CountWords(s)
    decreases |s|
  {
    var k := FindWhitespace(s, 0);
    if k < 0 {
      if s != [] {
        assert s + [] == s;
        CountWordsOfWord(s, []);
      }
      NonEmptyCons(s, []);
    } else {
      var run := WhitespaceRun(s, k);
      var rest := s[k + run..];
      assert SplitOnWhitespace(s) == [s[..k]] + SplitOnWhitespace(rest);
      NonEmptyCons(s[..k], SplitOnWhitespace(rest));
      SplitCountsWords(rest);
      CountWordsAtSplit(s, k, run);
    }
  }

  /** Every word but the last needs a separator after it: at most one word
      per two characters, rounded up; text that starts with whitespace has
      at most one per two characters. */
  lemma {:induction false} CountWordsBound(s: string)
    ensures CountWords(s) <= (|s| + 1) / 2
    ensures s != [] && IsWhitespace(s[0]) ==> CountWords(s) <= |s| / 2
    decreases |s|
  {
    if s != [] {
      if IsWhitespace(s[0]) {
        CountWordsBound(s[1..]);
      } else {
        CountWordsBound(s[WordLength(s)..]);
      }
    }
  }

  /** The word count is the scanner's count over the text once commands are
      removed and braces and backslashes blanked. */
  lemma WordCountIsScan(content: string)
    ensures WordCount(content) == CountWords(BlankBraces(StripCommands(content)))
  {
    SplitCountsWords(BlankBraces(StripCommands(content)));
  }

  // ---------------------------------------------------------------------
  // Properties of the word count
  // ---------------------------------------------------------------------

  /** Text with no backslash and no brace is counted as its runs of
      non-whitespace characters. */
  lemma WordCountPlainText(s: string)
    requires PlainText(s)
    ensures WordCount(s) == CountWords(s)
  {
    NoBackslashInPlain(s);
    StripLeavesPlainText(s);
    WordCountIsScan(s);
  }

  /** Text without a backslash holds no command and is left unchanged. */
  lemma {:induction false} StripLeavesPlainText(s: string)
    requires '\\' !in s
    ensures StripCommands(s) == s
    decreases |s|
  {
    if s != [] {
      assert s[0] != '\\';
      assert '\\' !in s[1..] by {
        forall k | 0 <= k < |s[1..]| ensures s[1..][k] != '\\' {
          assert s[1..][k] == s[k + 1];
        }
      }
      StripLeavesPlainText(s[1..]);
      StripHead(s);
      assert s == [s[0]] + s[1..];
    }
  }

  /** Removal introduces no character: whatever is left comes from `s`. */
  lemma {:induction false} StripKeepsCharacters(s: string)
    ensures forall c :: c in StripCommands(s) ==> c in s
    decreases |s|
  {
    if s == [] {
    } else if CommandStart(s, 0) {
      var rest := s[CommandMatchEnd(s, 0)..];
      StripKeepsCharacters(rest);
      forall c | c in rest ensures c in s {
        var k :| 0 <= k < |rest| && rest[k] == c;
        assert s[CommandMatchEnd(s, 0) + k] == c;
      }
    } else {
      StripKeepsCharacters(s[1..]);
      forall c | c in s[1..] ensures c in s {
        var k :| 0 <= k < |s[1..]| && s[1..][k] == c;
        assert s[1 + k] == c;
      }
    }
  }

  /** A first character that starts no command is kept. */
  lemma StripHead(s: string)
    requires s != [] && !CommandStart(s, 0)
    ensures StripCommands(s) == [s[0]] + StripCommands(s[1..])
  {
  }

  /** A whitespace prefix of length `k` passes through unchanged. */
  lemma {:induction false} StripSkipsWhitespacePrefix(x: string, k: nat)
    requires k <= |x| && AllWhitespace(x[..k])
    ensures StripCommands(x) == x[..k] + StripCommands(x[k..])
    decreases k
  {
    if k == 0 {
      assert x[..0] == [] && x[0..] == x;
    } else {
      assert x[..k - 1] == x[..k][..k - 1];
      StripSkipsWhitespacePrefix(x, k - 1);
      StripWhitespaceAt(x, k - 1);
      assert x[..k - 1] + [x[k - 1]] == x[..k];
    }
  }

  lemma StripWhitespaceAt(x: string, i: nat)
    requires i < |x| && IsWhitespace(x[i])
    ensures StripCommands(x[i..]) == [x[i]] + StripCommands(x[i + 1..])
  {
    var t := x[i..];
    assert t[0] == x[i] && t[1..] == x[i + 1..];
    StripHead(t);
  }

  lemma StripAfterWhitespace(w: string, s: string)
    requires AllWhitespace(w)
    ensures StripCommands(w + s) == w + StripCommands(s)
  {
    var x := w + s;
    assert x[..|w|] == w && x[|w|..] == s;
    StripSkipsWhitespacePrefix(x, |w|);
  }

  lemma BlankAppend(a: string, b: string)
    ensures BlankBraces(a + b) == BlankBraces(a) + BlankBraces(b)
  {
  }

  /** Leading whitespace adds no word. */
  lemma WordCountLeadingWhitespace(w: string, s: string)
    requires AllWhitespace(w)
    ensures WordCount(w + s) == WordCount(s)
  {
    StripAfterWhitespace(w, s);
    BlankAppend(w, StripCommands(s));
    assert BlankBraces(w) == w;
    WordCountIsScan(w + s);
    WordCountIsScan(s);
    CountWordsSkipsWhitespace(w, BlankBraces(StripCommands(s)));
  }

  lemma {:induction false} FindCharAppend(s: string, w: string, c: char, from: nat)
    requires from <= |s|
    requires c !in w
    ensures FindChar(s + w, c, from) == FindChar(s, c, from)
    decreases |s| - from
  {
    if from < |s| {
      FindCharAppend(s, w, c, from + 1);
    } else {
      assert forall i :: from <= i < |s + w| ==> (s + w)[i] == w[i - |s|];
    }
  }

  lemma {:induction false} LetterRunAppend(s: string, w: string, i: nat)
    requires i <= |s|
    requires AllWhitespace(w)
    ensures LetterRun(s + w, i) == LetterRun(s, i)
    decreases |s| - i
  {
    if i < |s| {
      LetterRunAppend(s, w, i + 1);
    }
  }

  lemma GroupEndAppend(s: string, w: string, i: nat, open: char, close: char)
    requires i <= |s|
    requires AllWhitespace(w) && !IsWhitespace(open) && !IsWhitespace(close)
    ensures GroupEnd(s + w, i, open, close) == GroupEnd(s, i, open, close)
  {
    if i < |s| {
      FindCharAppend(s, w, close, i + 1);
    }
  }

  /** Whitespace after a command cannot extend its match. */
  lemma CommandMatchEndAppend(s: string, w: string)
    requires CommandStart(s, 0)
    requires AllWhitespace(w)
    ensures CommandStart(s + w, 0)
    ensures CommandMatchEnd(s + w, 0) == CommandMatchEnd(s, 0)
  {
    LetterRunAppend(s, w, 1);
    var afterLetters := 1 + LetterRun(s, 1);
    GroupEndAppend(s, w, afterLetters, '[', ']');
    GroupEndAppend(s, w, GroupEnd(s, afterLetters, '[', ']'), '{', '}');
  }

  lemma {:induction false} StripBeforeWhitespace(s: string, w: string)
    requires AllWhitespace(w)
    ensures StripCommands(s + w) == StripCommands(s) + w
    decreases |s|
  {
    if s == [] {
      assert s + w == w;
      StripAfterWhitespace(w, []);
      assert w + [] == w;
    } else if CommandStart(s, 0) {
      CommandMatchEndAppend(s, w);
      var j := CommandMatchEnd(s, 0);
      assert (s + w)[j..] == s[j..] + w;
      StripBeforeWhitespace(s[j..], w);
    } else {
      assert !CommandStart(s + w, 0);
      assert (s + w)[1..] == s[1..] + w;
      StripBeforeWhitespace(s[1..], w);
    }
  }

  lemma {:induction false} CountWordsBeforeWhitespace(s: string, w: string)
    requires AllWhitespace(w)
    ensures CountWords(s + w) == CountWords(s)
    decreases |s|
  {
    if s == [] {
      assert s + w == w + [];
      CountWordsSkipsWhitespace(w, []);
    } else if IsWhitespace(s[0]) {
      assert (s + w)[1..] == s[1..] + w;
      CountWordsBeforeWhitespace(s[1..], w);
    } else {
      var n := WordLength(s);
      var word := s[..n];
      if n < |s| {
        assert s + w == word + (s[n..] + w);
        WordLengthOfWord(word, s[n..] + w);
        assert s == word + s[n..];
        WordLengthOfWord(word, s[n..]);
        assert (s + w)[n..] == s[n..] + w;
        CountWordsBeforeWhitespace(s[n..], w);
      } else {
        assert s == word;
        WordLengthOfWord(word, w);
        assert (s + w)[n..] == w;
        CountWordsSkipsWhitespace(w, []);
        assert w + [] == w;
        assert s[n..] == [];
      }
    }
  }

  /** Trailing whitespace adds no word. */
  lemma WordCountTrailingWhitespace(s: string, w: string)
    requires AllWhitespace(w)
    ensures WordCount(s + w) == WordCount(s)
  {
    StripBeforeWhitespace(s, w);
    BlankAppend(StripCommands(s), w);
    assert BlankBraces(w) == w;
    WordCountIsScan(s + w);
    WordCountIsScan(s);
    CountWordsBeforeWhitespace(BlankBraces(StripCommands(s)), w);
  }

  predicate AllLetters(s: string) {
    forall i :: 0 <= i < |s| ==> IsLetter(s[i])
  }

  /** A command with its bracket and brace groups disappears entirely, and
      the text after it is treated as if the command were not there. */
  lemma StripDropsCommand(name: string, option: string, argument: string, rest: string)
    requires |name| > 0 && AllLetters(name)
    requires ']' !in option && '}' !in argument
    ensures StripCommands("\\" + name + "[" + option + "]" + "{" + argument + "}" + rest) == StripCommands(rest)
  {
    var s := "\\" + name + "[" + option + "]" + "{" + argument + "}" + rest;
    var n := |name|;
    assert s[1..1 + n] == name;
    assert s[1 + n] == '[';
    assert LetterRun(s, 1) == n by {
      LetterRunOfWord(s, 1, n);
    }
    var b := 1 + n;
    var closeBracket := b + 1 + |option|;
    assert s[closeBracket] == ']';
    assert forall k :: b < k < closeBracket ==> s[k] == option[k - b - 1];
    assert GroupEnd(s, b, '[', ']') == closeBracket + 1;
    var c := closeBracket + 1;
    var closeBrace := c + 1 + |argument|;
    assert s[c] == '{' && s[closeBrace] == '}';
    assert forall k :: c < k < closeBrace ==> s[k] == argument[k - c - 1];
    assert GroupEnd(s, c, '{', '}') == closeBrace + 1;
    assert CommandStart(s, 0);
    assert s[closeBrace + 1..] == rest;
  }

  /** Without a bracket group, the command and its one brace group go. */
  lemma StripDropsCommandWithArgument(name: string, argument: string, rest: string)
    requires |name| > 0 && AllLetters(name)
    requires '}' !in argument
    ensures StripCommands("\\" + name + "{" + argument + "}" + rest) == StripCommands(rest)
  {
    var s := "\\" + name + "{" + argument + "}" + rest;
    var n := |name|;
    assert s[1..1 + n] == name;
    assert s[1 + n] == '{';
    assert LetterRun(s, 1) == n by {
      LetterRunOfWord(s, 1, n);
    }
    var c := 1 + n;
    var closeBrace := c + 1 + |argument|;
    assert s[closeBrace] == '}';
    assert forall k :: c < k < closeBrace ==> s[k] == argument[k - c - 1];
    assert GroupEnd(s, c, '[', ']') == c;
    assert GroupEnd(s, c, '{', '}') == closeBrace + 1;
    assert CommandStart(s, 0);
    assert s[closeBrace + 1..] == rest;
  }

  lemma {:induction false} LetterRunOfWord(s: string, i: nat, n: nat)
    requires i + n < |s|
    requires forall j :: i <= j < i + n ==> IsLetter(s[j])
    requires !IsLetter(s[i + n])
    ensures LetterRun(s, i) == n
    decreases n
  {
    if n > 0 {
      LetterRunOfWord(s, i + 1, n - 1);
    }
  }

  /** A word of plain text: non-empty, no whitespace, no brace and no
      backslash. */
  predicate PlainWord(w: string) {
    |w| > 0 && PlainText(w) && NoWhitespace(w)
  }

  lemma NoBackslashInPlain(s: string)
    requires PlainText(s)
    ensures '\\' !in s
  {
    forall i | 0 <= i < |s| ensures s[i] != '\\' {
      assert !IsBraceOrBackslash(s[i]);
    }
  }

  /** A bare command is removed when no letter, `[` or `{` follows it. */
  lemma StripDropsBareCommand(name: string, rest: string)
    requires |name| > 0 && AllLetters(name)
    requires rest == [] || (!IsLetter(rest[0]) && rest[0] != '[' && rest[0] != '{')
    ensures StripCommands("\\" + name + rest) == StripCommands(rest)
  {
    var s := "\\" + name + rest;
    var n := |name|;
    assert s[1..1 + n] == name;
    if rest == [] {
      LetterRunToEnd(s, 1);
    } else {
      assert s[1 + n] == rest[0];
      LetterRunOfWord(s, 1, n);
    }
    assert GroupEnd(s, 1 + n, '[', ']') == 1 + n;
    assert GroupEnd(s, 1 + n, '{', '}') == 1 + n;
    assert CommandStart(s, 0);
    assert s[1 + n..] == rest;
  }

  /** With a bracket group and no brace group right after it, the command
      and its bracket group go. */
  lemma StripDropsCommandWithOption(name: string, option: string, rest: string)
    requires |name| > 0 && AllLetters(name)
    requires ']' !in option
    requires rest == [] || rest[0] != '{'
    ensures StripCommands("\\" + name + "[" + option + "]" + rest) == StripCommands(rest)
  {
    var s := "\\" + name + "[" + option + "]" + rest;
    OptionMatchEnd(name, option, rest);
    assert s[|name| + |option| + 3..] == rest;
  }

  /** Where the match of `\name[option]` ends when no `{` follows. */
  lemma OptionMatchEnd(name: string, option: string, rest: string)
    requires |name| > 0 && AllLetters(name)
    requires ']' !in option
    requires rest == [] || rest[0] != '{'
    ensures var s := "\\" + name + "[" + option + "]" + rest;
      CommandStart(s, 0) && CommandMatchEnd(s, 0) == |name| + |option| + 3
  {
    var s := "\\" + name + "[" + option + "]" + rest;
    var n := |name|;
    assert s[1..1 + n] == name;
    assert s[1 + n] == '[';
    LetterRunOfWord(s, 1, n);
    var b := 1 + n;
    var closeBracket := b + 1 + |option|;
    assert s[closeBracket] == ']';
    assert forall k :: b < k < closeBracket ==> s[k] == option[k - b - 1];
    assert GroupEnd(s, b, '[', ']') == closeBracket + 1;
    assert closeBracket + 1 == |s| || s[closeBracket + 1] == rest[0];
  }

  /** Only the first brace group belongs to a command: in
      `\name{argument}{word}` the word after the command's group still
      counts, and it is the only word. */
  lemma SecondGroupCounts(name: string, argument: string, word: string)
    requires |name| > 0 && AllLetters(name)
    requires '}' !in argument
    requires PlainWord(word)
    ensures WordCount("\\" + name + "{" + argument + "}" + ("{" + word + "}")) == 1
  {
    var tail := "{" + word + "}";
    StripDropsCommandWithArgument(name, argument, tail);
    BracedWordIsOneWord(word);
    WordCountIsScan("\\" + name + "{" + argument + "}" + tail);
  }

  /** A word alone in braces is left as one word between two spaces. */
  lemma BracedWordIsOneWord(word: string)
    requires PlainWord(word)
    ensures CountWords(BlankBraces(StripCommands("{" + word + "}"))) == 1
  {
    var tail := "{" + word + "}";
    NoBackslashInPlain(word);
    assert '\\' !in tail;
    StripLeavesPlainText(tail);
    BracedWordBlanked(word);
    SpacedWordCounts(word);
  }

  lemma BracedWordBlanked(word: string)
    requires PlainText(word)
    ensures BlankBraces("{" + word + "}") == " " + (word + " ")
  {
    BlankAppend("{", word);
    BlankAppend("{" + word, "}");
  }

  lemma SpacedWordCounts(word: string)
    requires PlainWord(word)
    ensures CountWords(" " + (word + " ")) == 1
  {
    CountWordsSkipsWhitespace(" ", word + " ");
    CountWordsOfWord(word, " ");
    CountWordsSkipsWhitespace(" ", "");
    assert " " + "" == " ";
  }

  /** Leftover braces separate words: `first{second}third` is three words. */
  lemma BracesSeparateWords(first: string, second: string, third: string)
    requires PlainWord(first) && PlainWord(second) && PlainWord(third)
    ensures WordCount(first + "{" + second + "}" + third) == 3
  {
    var s := first + "{" + second + "}" + third;
    BracesBlanked(first, second, third);
    WordCountIsScan(s);
    ThreeWords(first, second, third);
  }

  lemma BracesBlanked(first: string, second: string, third: string)
    requires PlainWord(first) && PlainWord(second) && PlainWord(third)
    ensures var s := first + "{" + second + "}" + third;
      BlankBraces(StripCommands(s)) == first + (" " + (second + (" " + third)))
  {
    BracedTextKept(first, second, third);
    BracesBecomeSpaces(first, second, third);
  }

  lemma BracedTextKept(first: string, second: string, third: string)
    requires PlainWord(first) && PlainWord(second) && PlainWord(third)
    ensures var s := first + "{" + second + "}" + third;
      StripCommands(s) == s
  {
    NoBackslashInPlain(first);
    NoBackslashInPlain(second);
    NoBackslashInPlain(third);
    assert '\\' !in first + "{" + second + "}" + third;
    StripLeavesPlainText(first + "{" + second + "}" + third);
  }

  lemma BracesBecomeSpaces(first: string, second: string, third: string)
    requires PlainText(first) && PlainText(second) && PlainText(third)
    ensures BlankBraces(first + "{" + second + "}" + third) == first + (" " + (second + (" " + third)))
  {
    var ab := first + "{";
    var abc := ab + second;
    var abcd := abc + "}";
    BlankAppend(first, "{");
    BlankAppend(ab, second);
    BlankAppend(abc, "}");
    BlankAppend(abcd, third);
  }

  lemma ThreeWords(first: string, second: string, third: string)
    requires PlainWord(first) && PlainWord(second) && PlainWord(third)
    ensures CountWords(first + (" " + (second + (" " + third)))) == 3
  {
    CountWordsOfWord(third, "");
    assert third + "" == third;
    CountWordsSkipsWhitespace(" ", third);
    CountWordsOfWord(second, " " + third);
    CountWordsSkipsWhitespace(" ", second + (" " + third));
    CountWordsOfWord(first, " " + (second + (" " + third)));
  }
}
