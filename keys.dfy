/** `sanitize_key` (Economics_DashBoard.py:246-253): turns a topic or indicator label into
    a widget key. Spaces become `_`, then `re.sub(r'\W+', '', ...)` deletes every run of
    non-word characters. Word characters are taken to be ASCII letters, digits and `_`. */
module Keys {

  predicate IsWordChar(c: char) {
    ('a' <= c <= 'z') || ('A' <= c <= 'Z') || ('0' <= c <= '9') || c == '_'
  }

  predicate AllWordChars(s: string) {
    forall i | 0 <= i < |s| :: IsWordChar(s[i])
  }

  /** `text.replace(" ", "_")`. */
  function ReplaceSpaces(s: string): string {
    seq(|s|, i requires 0 <= i < |s| => if s[i] == ' ' then '_' else s[i])
  }

  /** Length of the longest prefix of `s` made of non-word characters: the run that
      `\W+` matches, greedily, at the start of `s`. */
  function NonWordRun(s: string): (n: nat)
    ensures n <= |s|
    ensures forall i | 0 <= i < n :: !IsWordChar(s[i])
    ensures n < |s| ==> IsWordChar(s[n])
  {
    if s == [] || IsWordChar(s[0]) then 0 else 1 + NonWordRun(s[1..])
  }

  /** `re.sub(r'\W+', '', s)`: scan left to right; a word character is copied, a maximal
      run of non-word characters is replaced by nothing. */
  function DeleteNonWordRuns(s: string): string
    decreases |s|
  {
    if s == [] then []
    else if IsWordChar(s[0]) then [s[0]] + DeleteNonWordRuns(s[1..])
    else DeleteNonWordRuns(s[NonWordRun(s)..])
  }

  function SanitizeKey(text: string): string {
    DeleteNonWordRuns(ReplaceSpaces(text))
  }

  /** Reference definition, one character at a time: the word characters of `s` in order. */
  function WordChars(s: string): string {
    if s == [] then [] else (if IsWordChar(s[0]) then [s[0]] else []) + WordChars(s[1..])
  }

  /** Reference definition of the key, one character at a time: a space gives `_`, another
      word character gives itself, anything else gives nothing. */
  function KeyChars(s: string): string {
    if s == [] then []
    else (if s[0] == ' ' then "_" else if IsWordChar(s[0]) then [s[0]] else []) + KeyChars(s[1..])
  }

  lemma {:induction false} WordCharsAppend(a: string, b: string)
    ensures WordChars(a + b) == WordChars(a) + WordChars(b)
  {
    if a == [] {
      assert a + b == b;
    } else {
      var head := if IsWordChar(a[0]) then [a[0]] else [];
      assert (a + b)[0] == a[0] && (a + b)[1..] == a[1..] + b;
      assert WordChars(a + b) == head + WordChars(a[1..] + b);
      WordCharsAppend(a[1..], b);
    }
  }

  lemma {:induction false} WordCharsOfNonWord(s: string)
    requires forall i | 0 <= i < |s| :: !IsWordChar(s[i])
    ensures WordChars(s) == []
  {
    if s != [] {
      WordCharsOfNonWord(s[1..]);
    }
  }

  /** Deleting maximal runs of non-word characters deletes exactly the non-word characters:
      the regular-expression substitution agrees with the per-character filter. */
  lemma {:induction false} DeleteRunsIsWordChars(s: string)
    ensures DeleteNonWordRuns(s) == WordChars(s)
    decreases |s|
  {
    if s != [] {
      if IsWordChar(s[0]) {
        DeleteRunsIsWordChars(s[1..]);
      } else {
        var n := NonWordRun(s);
        assert s == s[..n] + s[n..];
        WordCharsAppend(s[..n], s[n..]);
        WordCharsOfNonWord(s[..n]);
        DeleteRunsIsWordChars(s[n..]);
      }
    }
  }

  lemma {:induction false} WordCharsOfReplaced(s: string)
    ensures WordChars(ReplaceSpaces(s)) == KeyChars(s)
  {
    if s != [] {
      assert ReplaceSpaces(s)[1..] == ReplaceSpaces(s[1..]);
      WordCharsOfReplaced(s[1..]);
    }
  }

  /** The key is the input's word characters in their original order, each space
      replaced by `_`; everything else is deleted. */
  lemma SanitizeKeyCharwise(text: string)
    ensures SanitizeKey(text) == KeyChars(text)
  {
    DeleteRunsIsWordChars(ReplaceSpaces(text));
    WordCharsOfReplaced(text);
  }

  lemma {:induction false} KeyCharsShape(s: string)
    ensures AllWordChars(KeyChars(s))
    ensures |KeyChars(s)| <= |s|
    ensures AllWordChars(s) ==> KeyChars(s) == s
  {
    if s != [] {
      KeyCharsShape(s[1..]);
      assert s == [s[0]] + s[1..];
    }
  }

  /** Only word characters survive, and the key is never longer than the text. */
  lemma SanitizeKeyWordOnly(text: string)
    ensures AllWordChars(SanitizeKey(text))
    ensures |SanitizeKey(text)| <= |text|
  {
    SanitizeKeyCharwise(text);
    KeyCharsShape(text);
  }

  /** A text made of word characters is its own key. */
  lemma SanitizeKeyFixesWordText(text: string)
    requires AllWordChars(text)
    ensures SanitizeKey(text) == text
  {
    SanitizeKeyCharwise(text);
    KeyCharsShape(text);
  }

  /** Sanitising a key again changes nothing. */
  lemma SanitizeKeyIdempotent(text: string)
    ensures SanitizeKey(SanitizeKey(text)) == SanitizeKey(text)
  {
    SanitizeKeyWordOnly(text);
    SanitizeKeyFixesWordText(SanitizeKey(text));
  }

  lemma {:induction false} KeyCharsAppend(a: string, b: string)
    ensures KeyChars(a + b) == KeyChars(a) + KeyChars(b)
  {
    if a == [] {
      assert a + b == b;
    } else {
      var head := if a[0] == ' ' then "_" else if IsWordChar(a[0]) then [a[0]] else [];
      assert (a + b)[0] == a[0] && (a + b)[1..] == a[1..] + b;
      assert KeyChars(a + b) == head + KeyChars(a[1..] + b);
      KeyCharsAppend(a[1..], b);
    }
  }

  /** The key of a concatenation is the concatenation of the keys. */
  lemma SanitizeKeyAppend(a: string, b: string)
    ensures SanitizeKey(a + b) == SanitizeKey(a) + SanitizeKey(b)
  {
    SanitizeKeyCharwise(a + b);
    SanitizeKeyCharwise(a);
    SanitizeKeyCharwise(b);
    KeyCharsAppend(a, b);
  }

  /** `plot_key = f"plot_{sanitized_topic}_{sanitized_indicator}"` (lines 664-666): a
      widget key made of word characters only, equal to sanitising the whole
      `plot_<topic>_<label>` text at once. */
  function PlotKey(topic: string, name: string): (key: string)
    ensures AllWordChars(key)
    ensures key == SanitizeKey("plot_" + topic + "_" + name)
  {
    SanitizeKeyWordOnly(topic);
    SanitizeKeyWordOnly(name);
    SanitizeKeyAppend("plot_" + topic + "_", name);
    SanitizeKeyAppend("plot_" + topic, "_");
    SanitizeKeyAppend("plot_", topic);
    SanitizeKeyFixesWordText("plot_");
    SanitizeKeyFixesWordText("_");
    "plot_" + SanitizeKey(topic) + "_" + SanitizeKey(name)
  }
}
