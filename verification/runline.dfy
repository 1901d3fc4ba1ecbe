/**
 * The second tokenizer, `splitString` of run-line.c. Only the space
 * character separates words, and the word buffer always has exactly one
 * slot more than the words stored in it.
 */
module RunLine {
  import opened CStrings
  import opened Tokenizer

  /** The separators of run-line.c's tokenizer. */
  const SpaceOnly: set<char> := {' '}

  /**
   * The loop of splitString from position `i` on, where positions 0 to
   * `|s|` are visited and position `|s|` holds the terminator: a space or
   * the terminator ends the run begun at `start`, which is stored after
   * `found` when it is non-empty. The result is the words stored at the end.
   */
  function SpaceScan(s: string, i: nat, start: nat, found: seq<string>): seq<string>
    requires start <= i <= |s| + 1
    decreases |s| + 1 - i
  {
    if i == |s| + 1 then found
    else if i == |s| || s[i] == ' ' then
      SpaceScan(s, i + 1, i + 1, if i > start then found + [s[start..i]] else found)
    else SpaceScan(s, i + 1, start, found)
  }

  /** The scan stores, after `found`, the tokens of the text from the current run on. */
  lemma {:induction false} SpaceScanFindsTokens(s: string, i: nat, start: nat, found: seq<string>)
    requires start <= i <= |s|
    requires forall j :: start <= j < i ==> s[j] != ' '
    ensures SpaceScan(s, i, start, found) == found + Tokens(s[start..], SpaceOnly)
    decreases |s| - i
  {
    if i == |s| {
      TerminatorEndsRun(s, start, found);
    } else if s[i] == ' ' {
      var found' := if i > start then found + [s[start..i]] else found;
      SpaceScanFindsTokens(s, i + 1, i + 1, found');
      SpaceStep(s, start, i, found);
    } else {
      SpaceScanFindsTokens(s, i + 1, start, found);
    }
  }

  /** The terminator stores the run before it, if any, and ends the scan. */
  lemma TerminatorEndsRun(s: string, start: nat, found: seq<string>)
    requires start <= |s|
    requires forall j :: start <= j < |s| ==> s[j] != ' '
    ensures SpaceScan(s, |s|, start, found) == found + Tokens(s[start..], SpaceOnly)
  {
    if |s| > start {
      TokensAfterRun(s, start, |s|, SpaceOnly);
    }
    assert s[|s|..] == [];
  }

  /**
   * The scan step at a space: from `i` the scan finds the tokens from
   * `start` on once, from the space on, it finds those after the space.
   */
  lemma SpaceStep(s: string, start: nat, i: nat, found: seq<string>)
    requires start <= i < |s| && s[i] == ' '
    requires forall j :: start <= j < i ==> s[j] != ' '
    requires var found' := if i > start then found + [s[start..i]] else found;
      SpaceScan(s, i + 1, i + 1, found') == found' + Tokens(s[i + 1..], SpaceOnly)
    ensures SpaceScan(s, i, start, found) == found + Tokens(s[start..], SpaceOnly)
  {
    SpaceEndsRun(s, start, i, found);
  }

  /** A space stores the run before it, if any, and the tokens after it follow. */
  lemma SpaceEndsRun(s: string, start: nat, i: nat, found: seq<string>)
    requires start <= i < |s| && s[i] == ' '
    requires forall j :: start <= j < i ==> s[j] != ' '
    ensures (if i > start then found + [s[start..i]] else found) + Tokens(s[i + 1..], SpaceOnly)
         == found + Tokens(s[start..], SpaceOnly)
  {
    if i > start {
      RunThenSeparator(s, start, i, SpaceOnly);
      assert found + [s[start..i]] + Tokens(s[i + 1..], SpaceOnly)
          == found + ([s[start..i]] + Tokens(s[i + 1..], SpaceOnly));
    } else {
      TokensAtSeparator(s, i, SpaceOnly);
    }
  }

  /**
   * splitString: scans positions 0 to `length` inclusive, so the
   * terminating NUL closes the last word; a word is stored only when it is
   * non-empty, then the buffer is reallocated to `wordCount + 1` slots.
   */
  method SplitString(inputString: string) returns (words: array<string>, wordCount: nat)
    requires IsCString(inputString)
    ensures words.Length == wordCount + 1
    ensures words[..wordCount] == Tokens(inputString, SpaceOnly)
  {
    var length := |inputString|;
    var start := 0;
    var end := 0;
    wordCount := 0;
    words := new string[1];
    for i := 0 to length + 1
      invariant fresh(words) && words.Length == wordCount + 1
      invariant start <= i
      invariant SpaceScan(inputString, i, start, words[..wordCount]) == SpaceScan(inputString, 0, 0, [])
    {
      var c := CharAt(inputString, i);
      if c == ' ' || c == '\0' {
        ghost var before := words[..wordCount];
        ghost var after := if i > start then before + [inputString[start..i]] else before;
        end := i;
        if end > start {
          words[wordCount] := inputString[start..end];
          wordCount := wordCount + 1;
          assert words[..wordCount] == before + [inputString[start..end]];
          words := Realloc(words, wordCount + 1);
        }
        assert words[..wordCount] == after;
        start := end + 1;
      }
    }
    SpaceScanFindsTokens(inputString, 0, 0, []);
    assert inputString[0..] == inputString;
  }

  /**
   * On a line without tabs or newlines the two tokenizers agree: each
   * yields the maximal space-free runs.
   */
  lemma SplittersAgreeWithoutTabsOrNewlines(s: string)
    requires forall k :: 0 <= k < |s| ==> s[k] != '\t' && s[k] != '\n'
    ensures Tokens(s, SpaceOnly) == Tokens(s, Whitespace)
  {
    TokensDependOnlyOnSeparatorsPresent(s, SpaceOnly, Whitespace);
  }

  /**
   * A tab or a newline stays inside a word of run-line.c's tokenizer: any
   * space-free text is one word, where bash_func.c's tokenizer would cut
   * it when it holds a tab or a newline.
   */
  lemma TabsAndNewlinesStayInWords(s: string)
    requires IsToken(s, SpaceOnly)
    ensures Tokens(s, SpaceOnly) == [s]
    ensures ('\t' in s || '\n' in s) ==> Tokens(s, Whitespace) != [s]
  {
    TokensOfJoin([s], ' ', SpaceOnly);
    TokensAreWellFormed(s, Whitespace);
  }

  /**
   * Two words joined by a tab or a newline are two words to bash_func.c's
   * tokenizer and one word to run-line.c's.
   */
  lemma TabsAndNewlinesSeparateInBashFunc(a: string, b: string, sep: char)
    requires IsToken(a, Whitespace) && IsToken(b, Whitespace)
    requires sep == '\t' || sep == '\n'
    ensures Tokens(a + [sep] + b, Whitespace) == [a, b]
    ensures Tokens(a + [sep] + b, SpaceOnly) == [a + [sep] + b]
  {
    assert Join([a, b], sep) == a + [sep] + b by {
      assert [a, b][1..] == [b];
    }
    TokensOfJoin([a, b], sep, Whitespace);
    TabsAndNewlinesStayInWords(a + [sep] + b);
  }
}
