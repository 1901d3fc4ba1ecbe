/**
 * Cutting a command line into words. `Tokens(s, seps)` is the reference
 * definition shared by both tokenizers of the shell: the maximal runs of
 * characters of `s` that are not in `seps`, left to right.
 * `SplitStringWithoutSpaces` is the tokenizer of bash_func.c, whose
 * separators are space, tab and newline.
 */
module Tokenizer {
  import opened CStrings

  /** The separators of bash_func.c's tokenizer. */
  const Whitespace: set<char> := {' ', '\t', '\n'}

  /** The size of the word buffer before its first doubling. */
  const InitialWordBufferSize: nat := 10

  /** A well-formed token: non-empty and free of separators. */
  predicate IsToken(t: string, seps: set<char>) {
    t != [] && forall k :: 0 <= k < |t| ==> t[k] !in seps
  }

  /** The longest prefix of `s` that holds no separator. */
  function Word(s: string, seps: set<char>): (w: string)
    ensures |w| <= |s| && w == s[..|w|]
    ensures forall k :: 0 <= k < |w| ==> w[k] !in seps
    ensures |w| < |s| ==> s[|w|] in seps
  {
    if s == [] || s[0] in seps then [] else [s[0]] + Word(s[1..], seps)
  }

  /** The maximal separator-free runs of `s`, in order. */
  function Tokens(s: string, seps: set<char>): seq<string>
    decreases |s|
  {
    if s == [] then []
    else if s[0] in seps then Tokens(s[1..], seps)
    else
      var w := Word(s, seps);
      [w] + Tokens(s[|w|..], seps)
  }

  /** A separator-free prefix that ends at a separator (or at the end) is the first word. */
  lemma {:induction false} WordIsPrefix(s: string, k: nat, seps: set<char>)
    requires k <= |s|
    requires forall j :: 0 <= j < k ==> s[j] !in seps
    requires k == |s| || s[k] in seps
    ensures Word(s, seps) == s[..k]
  {
    if k > 0 {
      WordIsPrefix(s[1..], k - 1, seps);
      assert s[..k] == [s[0]] + s[1..][..k - 1];
    }
  }

  /** Tokens of a line that starts with the separator-free run `s[..k]`. */
  lemma TokensAtWord(s: string, k: nat, seps: set<char>)
    requires 0 < k <= |s|
    requires forall j :: 0 <= j < k ==> s[j] !in seps
    requires k == |s| || s[k] in seps
    ensures Tokens(s, seps) == [s[..k]] + Tokens(s[k..], seps)
  {
    WordIsPrefix(s, k, seps);
  }

  /** A run `str[start..i]` ended by a separator or by the end of the line is the next token. */
  lemma TokensAfterRun(str: string, start: nat, i: nat, seps: set<char>)
    requires start < i <= |str|
    requires forall j :: start <= j < i ==> str[j] !in seps
    requires i == |str| || str[i] in seps
    ensures Tokens(str[start..], seps) == [str[start..i]] + Tokens(str[i..], seps)
  {
    var t := str[start..];
    TokensAtWord(t, i - start, seps);
    assert t[..i - start] == str[start..i];
    assert t[i - start..] == str[i..];
  }

  /** A separator contributes nothing. */
  lemma TokensAtSeparator(str: string, i: nat, seps: set<char>)
    requires i < |str| && str[i] in seps
    ensures Tokens(str[i..], seps) == Tokens(str[i + 1..], seps)
  {
    assert str[i..][1..] == str[i + 1..];
  }

  /** A run ended by a separator is the next token; the separator contributes nothing. */
  lemma RunThenSeparator(str: string, start: nat, i: nat, seps: set<char>)
    requires start < i < |str| && str[i] in seps
    requires forall j :: start <= j < i ==> str[j] !in seps
    ensures Tokens(str[start..], seps) == [str[start..i]] + Tokens(str[i + 1..], seps)
  {
    TokensAfterRun(str, start, i, seps);
    TokensAtSeparator(str, i, seps);
  }

  /** Every token is non-empty and holds no separator. */
  lemma {:induction false} TokensAreWellFormed(s: string, seps: set<char>)
    ensures forall k :: 0 <= k < |Tokens(s, seps)| ==> IsToken(Tokens(s, seps)[k], seps)
    decreases |s|
  {
    if s != [] {
      if s[0] in seps {
        TokensAreWellFormed(s[1..], seps);
      } else {
        var w := Word(s, seps);
        TokensAreWellFormed(s[|w|..], seps);
      }
    }
  }

  /** A line gives no token exactly when it is made of separators only. */
  lemma {:induction false} NoTokensIffAllSeparators(s: string, seps: set<char>)
    ensures Tokens(s, seps) == [] <==> forall k :: 0 <= k < |s| ==> s[k] in seps
    decreases |s|
  {
    if s != [] {
      if s[0] in seps {
        NoTokensIffAllSeparators(s[1..], seps);
        assert forall k :: 1 <= k < |s| ==> s[k] == s[1..][k - 1];
      }
    }
  }

  /** Two separator sets that agree on the characters of `s` cut it the same way. */
  lemma {:induction false} TokensDependOnlyOnSeparatorsPresent(s: string, a: set<char>, b: set<char>)
    requires forall k :: 0 <= k < |s| ==> (s[k] in a <==> s[k] in b)
    ensures Tokens(s, a) == Tokens(s, b)
    decreases |s|
  {
    if s != [] {
      if s[0] in a {
        TokensDependOnlyOnSeparatorsPresent(s[1..], a, b);
      } else {
        var w := Word(s, a);
        WordIsPrefix(s, |w|, b);
        TokensDependOnlyOnSeparatorsPresent(s[|w|..], a, b);
      }
    }
  }

  /** The words joined by one separator character. */
  function Join(ws: seq<string>, sep: char): string {
    if ws == [] then []
    else if |ws| == 1 then ws[0]
    else ws[0] + [sep] + Join(ws[1..], sep)
  }

  /** A token followed by nothing or by a separator is cut off whole. */
  lemma TokensAfterToken(w: string, rest: string, seps: set<char>)
    requires IsToken(w, seps)
    requires rest == [] || rest[0] in seps
    ensures Tokens(w + rest, seps) == [w] + Tokens(rest, seps)
  {
    var s := w + rest;
    assert s[..|w|] == w && s[|w|..] == rest;
    TokensAtWord(s, |w|, seps);
  }

  /** Tokenizing words joined by a separator gives the words back. */
  lemma {:induction false} TokensOfJoin(ws: seq<string>, sep: char, seps: set<char>)
    requires sep in seps
    requires forall k :: 0 <= k < |ws| ==> IsToken(ws[k], seps)
    ensures Tokens(Join(ws, sep), seps) == ws
  {
    if |ws| == 1 {
      TokensAfterToken(ws[0], [], seps);
      assert ws[0] + [] == ws[0];
    } else if |ws| > 1 {
      var rest := Join(ws[1..], sep);
      assert Join(ws, sep) == ws[0] + ([sep] + rest);
      TokensAfterToken(ws[0], [sep] + rest, seps);
      assert ([sep] + rest)[1..] == rest;
      TokensOfJoin(ws[1..], sep, seps);
    }
  }

  /**
   * The scan of splitStringWithoutSpaces from position `i` on, one
   * character at a time: `inWord` says whether a run of non-separators
   * began at `start`, and `found` holds the words stored so far. The result
   * is the words stored when the terminator is reached.
   */
  function Scan(str: string, i: nat, start: nat, inWord: bool, found: seq<string>): seq<string>
    requires start <= i <= |str|
    decreases |str| - i
  {
    if i == |str| then (if inWord then found + [str[start..i]] else found)
    else if str[i] in Whitespace then Scan(str, i + 1, start, false, if inWord then found + [str[start..i]] else found)
    else if inWord then Scan(str, i + 1, start, true, found)
    else Scan(str, i + 1, i, true, found)
  }

  /**
   * The scan stores, after the words found so far, the tokens of the text
   * not yet cut: from the start of the current run, or from `i` between runs.
   */
  lemma {:induction false} ScanFindsTokens(str: string, i: nat, start: nat, inWord: bool, found: seq<string>)
    requires start <= i <= |str|
    requires inWord ==> start < i && forall j :: start <= j < i ==> str[j] !in Whitespace
    ensures inWord ==> Scan(str, i, start, inWord, found) == found + Tokens(str[start..], Whitespace)
    ensures !inWord ==> Scan(str, i, start, inWord, found) == found + Tokens(str[i..], Whitespace)
    decreases |str| - i
  {
    if i == |str| {
      ScanAtEnd(str, start, inWord, found);
    } else if str[i] in Whitespace {
      var found' := if inWord then found + [str[start..i]] else found;
      ScanFindsTokens(str, i + 1, start, false, found');
      SeparatorStep(str, i, start, inWord, found);
    } else if inWord {
      ScanFindsTokens(str, i + 1, start, true, found);
    } else {
      ScanFindsTokens(str, i + 1, i, true, found);
    }
  }

  /** At the terminator the scan stores the open run, if any, and stops. */
  lemma ScanAtEnd(str: string, start: nat, inWord: bool, found: seq<string>)
    requires start <= |str|
    requires inWord ==> start < |str| && forall j :: start <= j < |str| ==> str[j] !in Whitespace
    ensures inWord ==> Scan(str, |str|, start, inWord, found) == found + Tokens(str[start..], Whitespace)
    ensures !inWord ==> Scan(str, |str|, start, inWord, found) == found + Tokens(str[|str|..], Whitespace)
  {
    assert str[|str|..] == [];
    if inWord {
      TokensAfterRun(str, start, |str|, Whitespace);
    }
  }

  /**
   * The scan step at a separator, which stores the open run, if any: from
   * `i` the scan finds the tokens not yet cut once, from the separator on,
   * it finds those after the separator.
   */
  lemma SeparatorStep(str: string, i: nat, start: nat, inWord: bool, found: seq<string>)
    requires start <= i < |str| && str[i] in Whitespace
    requires inWord ==> start < i && forall j :: start <= j < i ==> str[j] !in Whitespace
    requires var found' := if inWord then found + [str[start..i]] else found;
      Scan(str, i + 1, start, false, found') == found' + Tokens(str[i + 1..], Whitespace)
    ensures inWord ==> Scan(str, i, start, inWord, found) == found + Tokens(str[start..], Whitespace)
    ensures !inWord ==> Scan(str, i, start, inWord, found) == found + Tokens(str[i..], Whitespace)
  {
    if inWord {
      RunThenSeparator(str, start, i, Whitespace);
      assert found + [str[start..i]] + Tokens(str[i + 1..], Whitespace)
          == found + ([str[start..i]] + Tokens(str[i + 1..], Whitespace));
    } else {
      TokensAtSeparator(str, i, Whitespace);
    }
  }

  /**
   * Stores `w` after the first `wordCount` words of a buffer of
   * `bufferSize` slots, doubling the buffer first when it is full.
   */
  method StoreWord(words: array<string>, wordCount: nat, bufferSize: nat, w: string)
    returns (words': array<string>, bufferSize': nat)
    requires words.Length == bufferSize > 0 && wordCount <= bufferSize
    modifies words
    ensures words'.Length == bufferSize' && wordCount < bufferSize'
    ensures words' == words || fresh(words')
    ensures bufferSize' == if wordCount < bufferSize then bufferSize else 2 * bufferSize
    ensures words'[..wordCount + 1] == old(words[..wordCount]) + [w]
  {
    words', bufferSize' := words, bufferSize;
    if wordCount >= bufferSize' {
      bufferSize' := bufferSize' * 2;
      words' := Realloc(words', bufferSize');
    }
    words'[wordCount] := w;
  }

  /**
   * splitStringWithoutSpaces: one pass over the line with a `start` index
   * and an `inWord` flag, copying each finished run into a word buffer that
   * starts with ten slots and doubles whenever it is full.
   */
  method SplitStringWithoutSpaces(str: string) returns (words: array<string>, wordCount: nat)
    requires IsCString(str)
    ensures wordCount <= words.Length
    ensures words[..wordCount] == Tokens(str, Whitespace)
    ensures words.Length == InitialWordBufferSize || words.Length < 2 * wordCount
  {
    var wordBufferSize := InitialWordBufferSize;
    wordCount := 0;
    words := new string[wordBufferSize];
    var i := 0;
    var start := 0;
    var inWord := false;
    while CharAt(str, i) != '\0'
      invariant start <= i <= |str|
      invariant fresh(words) && words.Length == wordBufferSize
      invariant wordCount <= wordBufferSize
      invariant wordBufferSize == InitialWordBufferSize || wordBufferSize < 2 * wordCount
      invariant inWord ==> start < i
      invariant Scan(str, i, start, inWord, words[..wordCount]) == Scan(str, 0, 0, false, [])
      decreases |str| - i
    {
      if str[i] == ' ' || str[i] == '\t' || str[i] == '\n' {
        if inWord {
          words, wordBufferSize := StoreWord(words, wordCount, wordBufferSize, str[start..i]);
          wordCount := wordCount + 1;
          inWord := false;
        }
      } else {
        if !inWord {
          start := i;
          inWord := true;
        }
      }
      i := i + 1;
    }

    if inWord {
      words, wordBufferSize := StoreWord(words, wordCount, wordBufferSize, str[start..i]);
      wordCount := wordCount + 1;
    }
    ScanFindsTokens(str, 0, 0, false, []);
    assert str[0..] == str;
  }
}
