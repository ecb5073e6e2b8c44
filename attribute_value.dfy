/**
 * The attribute-value micro-grammar of RegexpHTMLParser: the VALUE fragment
 *
 *     \s*=\s*(?:"([^"]*)"|'([^']*)'|([^"'\s>][^\s>]*)(?=[\s>]))
 *
 * and the fixed companion attributes TYPE=image and REL=stylesheet, read as
 * explicit recognizers over a string at a position. The expression is
 * compiled case-insensitively; VALUE holds no letter, so that matters only for
 * the companion attributes.
 */
module AttributeValue {
  import opened Wrappers
  import opened Grammar

  /** `\s`: Perl 5's whitespace class. */
  predicate IsSpace(c: char) {
    c == ' ' || c == '\t' || c == '\n' || c == '\r' || c == '\U{C}'
  }

  /** `[\s>]`: what ends an unquoted value, without being consumed. */
  predicate IsValueEnd(c: char) {
    IsSpace(c) || c == '>'
  }

  /** Every character of s[i..j] is whitespace. */
  predicate AllSpace(s: string, i: nat, j: nat)
    requires i <= j <= |s|
  {
    forall k :: i <= k < j ==> IsSpace(s[k])
  }

  /**
   * The first position at or after i whose character satisfies `stop`, or |s|
   * when there is none: how far a greedy `[^...]*` runs.
   */
  function FirstStop(s: string, i: nat, stop: char -> bool): (r: nat)
    requires i <= |s|
    ensures i <= r <= |s|
    ensures forall k :: i <= k < r ==> !stop(s[k])
    ensures r < |s| ==> stop(s[r])
    decreases |s| - i
  {
    if i == |s| || stop(s[i]) then i else FirstStop(s, i + 1, stop)
  }

  /** How far `\s*` runs from i. */
  function SkipSpace(s: string, i: nat): (r: nat)
    requires i <= |s|
    ensures i <= r <= |s| && AllSpace(s, i, r)
    ensures r < |s| ==> !IsSpace(s[r])
  {
    FirstStop(s, i, c => !IsSpace(c))
  }

  /** What VALUE matched: which of its three groups is set, that group's text, and where the match ends. */
  datatype ValueMatch = ValueMatch(quoting: Quoting, contents: string, end: nat)

  /** The text of an unquoted value: `[^"'\s>][^\s>]*`. */
  predicate UnquotedText(t: string) {
    && |t| > 0
    && t[0] != '"' && t[0] != '\''
    && forall k :: 0 <= k < |t| ==> !IsValueEnd(t[k])
  }

  /**
   * VALUE read declaratively: s[i..v.end] is whitespace, `=` at position eq,
   * whitespace, and from position start one of the three forms, its group
   * holding v.contents. An unquoted value must be followed by whitespace or
   * `>`, which the match does not consume.
   */
  predicate ValueAt(s: string, i: nat, eq: nat, start: nat, v: ValueMatch) {
    && i <= eq < start < v.end <= |s|
    && AllSpace(s, i, eq) && s[eq] == '=' && AllSpace(s, eq + 1, start)
    && match v.quoting
       case DoubleQuoted =>
         && v.end == start + |v.contents| + 2
         && s[start] == '"' && s[start + 1..v.end - 1] == v.contents && s[v.end - 1] == '"'
         && '"' !in v.contents
       case SingleQuoted =>
         && v.end == start + |v.contents| + 2
         && s[start] == '\'' && s[start + 1..v.end - 1] == v.contents && s[v.end - 1] == '\''
         && '\'' !in v.contents
       case Unquoted =>
         && v.end == start + |v.contents|
         && s[start..v.end] == v.contents && UnquotedText(v.contents)
         && v.end < |s| && IsValueEnd(s[v.end])
  }

  /** `\s*=\s*` at position i: where the value proper starts, or None when no `=` follows the whitespace. */
  function AfterEquals(s: string, i: nat): (r: Option<nat>)
    requires i <= |s|
    ensures r.Some? ==> i < r.value <= |s|
  {
    var eq := SkipSpace(s, i);
    if eq == |s| || s[eq] != '=' then None else Some(SkipSpace(s, eq + 1))
  }

  /** The alternation `"([^"]*)"|'([^']*)'|([^"'\s>][^\s>]*)(?=[\s>])` from position start. */
  function ValueForm(s: string, start: nat): (r: Option<ValueMatch>)
    requires start <= |s|
    ensures r.Some? ==> start < r.value.end <= |s|
    ensures r.Some? && r.value.quoting == DoubleQuoted ==> '"' !in r.value.contents
    ensures r.Some? && r.value.quoting == SingleQuoted ==> '\'' !in r.value.contents
    ensures r.Some? && r.value.quoting == Unquoted ==>
              UnquotedText(r.value.contents) && r.value.end < |s| && IsValueEnd(s[r.value.end])
  {
    if start == |s| then None
    else if s[start] == '"' then
      var close := FirstStop(s, start + 1, c => c == '"');
      if close == |s| then None else Some(ValueMatch(DoubleQuoted, s[start + 1..close], close + 1))
    else if s[start] == '\'' then
      var close := FirstStop(s, start + 1, c => c == '\'');
      if close == |s| then None else Some(ValueMatch(SingleQuoted, s[start + 1..close], close + 1))
    else
      var stop := FirstStop(s, start, IsValueEnd);
      if stop == start || stop == |s| then None else Some(ValueMatch(Unquoted, s[start..stop], stop))
  }

  /** The VALUE recognizer: where VALUE matches at position i, and how. */
  function MatchValue(s: string, i: nat): (r: Option<ValueMatch>)
    requires i <= |s|
    ensures r.Some? ==> i < r.value.end <= |s|
    ensures r.Some? && r.value.quoting == DoubleQuoted ==> '"' !in r.value.contents
    ensures r.Some? && r.value.quoting == SingleQuoted ==> '\'' !in r.value.contents
    ensures r.Some? && r.value.quoting == Unquoted ==>
              UnquotedText(r.value.contents) && r.value.end < |s| && IsValueEnd(s[r.value.end])
  {
    match AfterEquals(s, i)
    case None => None
    case Some(start) => ValueForm(s, start)
  }

  /** Whatever the recognizer returns is a match of VALUE. */
  lemma MatchValueSound(s: string, i: nat)
    requires i <= |s| && MatchValue(s, i).Some?
    ensures exists eq, start :: ValueAt(s, i, eq, start, MatchValue(s, i).value)
  {
    var v := MatchValue(s, i).value;
    var eq := SkipSpace(s, i);
    var start := SkipSpace(s, eq + 1);
    assert ValueAt(s, i, eq, start, v);
  }

  /** Every match of VALUE at position i is the one the recognizer returns. */
  lemma MatchValueComplete(s: string, i: nat, eq: nat, start: nat, v: ValueMatch)
    requires ValueAt(s, i, eq, start, v)
    ensures MatchValue(s, i) == Some(v)
  {
    assert !IsSpace(s[start]) by {
      if v.quoting == Unquoted {
        assert s[start] == v.contents[0];
      }
    }
    assert AfterEquals(s, i) == Some(start) by {
      assert SkipSpace(s, i) == eq;
      assert SkipSpace(s, eq + 1) == start;
    }
    ValueFormComplete(s, i, eq, start, v);
  }

  /** The forms part of MatchValueComplete. */
  lemma ValueFormComplete(s: string, i: nat, eq: nat, start: nat, v: ValueMatch)
    requires ValueAt(s, i, eq, start, v)
    ensures ValueForm(s, start) == Some(v)
  {
    match v.quoting
    case DoubleQuoted =>
      assert forall k :: start + 1 <= k < v.end - 1 ==> s[k] == v.contents[k - start - 1];
      assert FirstStop(s, start + 1, c => c == '"') == v.end - 1;
    case SingleQuoted =>
      assert forall k :: start + 1 <= k < v.end - 1 ==> s[k] == v.contents[k - start - 1];
      assert FirstStop(s, start + 1, c => c == '\'') == v.end - 1;
    case Unquoted =>
      assert forall k :: start <= k < v.end ==> s[k] == v.contents[k - start];
      assert FirstStop(s, start, IsValueEnd) == v.end;
  }

  /**
   * VALUE matches in at most one way at a given position: the form, hence
   * which of its three groups is set, the group's text and the end are all
   * determined.
   */
  lemma ValueUnambiguous(s: string, i: nat, eq: nat, start: nat, v: ValueMatch,
                         eq': nat, start': nat, v': ValueMatch)
    requires ValueAt(s, i, eq, start, v) && ValueAt(s, i, eq', start', v')
    ensures v == v'
  {
    MatchValueComplete(s, i, eq, start, v);
    MatchValueComplete(s, i, eq', start', v');
  }

  // ---------------------------------------------------------------------
  // The companion attributes TYPE=image and REL=stylesheet
  // ---------------------------------------------------------------------

  /** Case folding of the case-insensitive match (ASCII letters). */
  function ToLower(c: char): char {
    if 'A' <= c <= 'Z' then (c as int + 32) as char else c
  }

  /** Two strings are equal up to case. */
  predicate EqualsIgnoreCase(a: string, b: string) {
    |a| == |b| && forall k :: 0 <= k < |a| ==> ToLower(a[k]) == ToLower(b[k])
  }

  /** The word of a companion attribute is written with no quote, no whitespace and no `>`. */
  predicate PlainWord(w: string) {
    |w| > 0 && forall k :: 0 <= k < |w| ==> w[k] != '"' && w[k] != '\'' && !IsValueEnd(w[k])
  }

  /** The attribute name `name` is written at position i, in any case. */
  predicate NameAt(s: string, i: nat, name: string)
    requires i <= |s|
  {
    |s| - i >= |name| && EqualsIgnoreCase(s[i..i + |name|], name)
  }

  /** `quote word quote` starts at position start, the word in any case. */
  predicate QuotedWordAt(s: string, start: nat, quote: char, word: string) {
    && start + |word| + 2 <= |s|
    && s[start] == quote
    && EqualsIgnoreCase(s[start + 1..start + 1 + |word|], word)
    && s[start + 1 + |word|] == quote
  }

  /** The bare `word`, in any case, starts at position start and is followed by whitespace or `>`. */
  predicate BareWordAt(s: string, start: nat, word: string) {
    start + |word| < |s| && EqualsIgnoreCase(s[start..start + |word|], word) && IsValueEnd(s[start + |word|])
  }

  /** The alternation `"word"|'word'|word(?=[\s>])` from position start: the end of the match, or None. */
  function WordForm(s: string, start: nat, word: string): (r: Option<nat>)
    ensures r.Some? ==> start < r.value <= |s|
  {
    if QuotedWordAt(s, start, '"', word) || QuotedWordAt(s, start, '\'', word) then Some(start + |word| + 2)
    else if |word| > 0 && BareWordAt(s, start, word) then Some(start + |word|)
    else None
  }

  /**
   * `NAME\s*=\s*(?:"word"|'word'|word(?=[\s>]))` at position i, compared
   * case-insensitively: the end of the match, or None.
   */
  function MatchCompanion(s: string, i: nat, name: string, word: string): (r: Option<nat>)
    requires i <= |s|
    ensures r.Some? ==> NameAt(s, i, name) && i + |name| < r.value <= |s|
  {
    if !NameAt(s, i, name) then None
    else match AfterEquals(s, i + |name|)
      case None => None
      case Some(start) => WordForm(s, start, word)
  }


  /** Case folding keeps quotes, whitespace and `>` apart from every other character. */
  lemma ToLowerKeepsDelimiters(x: char, y: char)
    requires ToLower(x) == ToLower(y)
    ensures (x == '"') == (y == '"') && (x == '\'') == (y == '\'') && IsValueEnd(x) == IsValueEnd(y)
  {
  }

  /** Text equal up to case to a plain word holds no quote, whitespace or `>` either. */
  lemma EqualsPlainWord(t: string, word: string)
    requires PlainWord(word) && EqualsIgnoreCase(t, word)
    ensures forall k :: 0 <= k < |t| ==> t[k] != '"' && t[k] != '\'' && !IsValueEnd(t[k])
  {
    forall k | 0 <= k < |t|
      ensures t[k] != '"' && t[k] != '\'' && !IsValueEnd(t[k])
    {
      ToLowerKeepsDelimiters(t[k], word[k]);
    }
  }

  /**
   * A companion attribute's value is exactly a VALUE whose text equals the
   * word up to case: the recognizer accepts the double-quoted, the
   * single-quoted or the bare word followed by whitespace or `>`, and nothing
   * else.
   */
  lemma CompanionIsValue(s: string, i: nat, name: string, word: string)
    requires i <= |s| && PlainWord(word)
    ensures MatchCompanion(s, i, name, word).Some? <==>
              && NameAt(s, i, name)
              && MatchValue(s, i + |name|).Some?
              && EqualsIgnoreCase(MatchValue(s, i + |name|).value.contents, word)
    ensures MatchCompanion(s, i, name, word).Some? ==>
              MatchCompanion(s, i, name, word).value == MatchValue(s, i + |name|).value.end
  {
    if NameAt(s, i, name) && AfterEquals(s, i + |name|).Some? {
      WordFormIsValueForm(s, AfterEquals(s, i + |name|).value, word);
    }
  }

  /** The word alternation accepts exactly the value forms whose text equals the word up to case. */
  lemma WordFormIsValueForm(s: string, start: nat, word: string)
    requires start <= |s| && PlainWord(word)
    ensures WordForm(s, start, word).Some? <==>
              ValueForm(s, start).Some? && EqualsIgnoreCase(ValueForm(s, start).value.contents, word)
    ensures WordForm(s, start, word).Some? ==> WordForm(s, start, word).value == ValueForm(s, start).value.end
  {
    if start < |s| {
      if s[start] == '"' || s[start] == '\'' {
        QuotedWordIsValue(s, start, s[start], word);
      } else {
        BareWordIsValue(s, start, word);
      }
    }
  }

  /** The quoted case of WordFormIsValueForm, for either quote. */
  lemma QuotedWordIsValue(s: string, start: nat, quote: char, word: string)
    requires start < |s| && s[start] == quote && (quote == '"' || quote == '\'') && PlainWord(word)
    ensures var close := FirstStop(s, start + 1, c => c == quote);
            QuotedWordAt(s, start, quote, word) <==>
              close < |s| && EqualsIgnoreCase(s[start + 1..close], word)
    ensures QuotedWordAt(s, start, quote, word) ==> FirstStop(s, start + 1, c => c == quote) == start + 1 + |word|
    ensures !BareWordAt(s, start, word)
  {
    var n := |word|;
    var close := FirstStop(s, start + 1, c => c == quote);
    if QuotedWordAt(s, start, quote, word) {
      EqualsPlainWord(s[start + 1..start + 1 + n], word);
      assert forall k :: start + 1 <= k < start + 1 + n ==> s[k] == s[start + 1..start + 1 + n][k - start - 1];
      assert close == start + 1 + n;
    }
    if close < |s| && EqualsIgnoreCase(s[start + 1..close], word) {
      assert close == start + 1 + n;
    }
    if BareWordAt(s, start, word) {
      ToLowerKeepsDelimiters(s[start], word[0]);
    }
  }

  /** The bare case of WordFormIsValueForm. */
  lemma BareWordIsValue(s: string, start: nat, word: string)
    requires start < |s| && s[start] != '"' && s[start] != '\'' && PlainWord(word)
    ensures var stop := FirstStop(s, start, IsValueEnd);
            BareWordAt(s, start, word) <==>
              stop != start && stop < |s| && EqualsIgnoreCase(s[start..stop], word)
    ensures BareWordAt(s, start, word) ==> FirstStop(s, start, IsValueEnd) == start + |word|
  {
    var n := |word|;
    var stop := FirstStop(s, start, IsValueEnd);
    if BareWordAt(s, start, word) {
      EqualsPlainWord(s[start..start + n], word);
      assert forall k :: start <= k < start + n ==> s[k] == s[start..start + n][k - start];
      assert stop == start + n;
    }
  }

  /** INPUT's condition `TYPE=image`: a VALUE after the name `type` whose text is `image`, in any case. */
  function MatchTypeImage(s: string, i: nat): (r: Option<nat>)
    requires i <= |s|
    ensures r.Some? <==>
              NameAt(s, i, "type") && MatchValue(s, i + 4).Some?
              && EqualsIgnoreCase(MatchValue(s, i + 4).value.contents, "image")
    ensures r.Some? ==> r.value == MatchValue(s, i + 4).value.end
  {
    CompanionIsValue(s, i, "type", "image");
    MatchCompanion(s, i, "type", "image")
  }

  /** LINK's condition `REL=stylesheet`: a VALUE after the name `rel` whose text is `stylesheet`, in any case. */
  function MatchRelStylesheet(s: string, i: nat): (r: Option<nat>)
    requires i <= |s|
    ensures r.Some? <==>
              NameAt(s, i, "rel") && MatchValue(s, i + 3).Some?
              && EqualsIgnoreCase(MatchValue(s, i + 3).value.contents, "stylesheet")
    ensures r.Some? ==> r.value == MatchValue(s, i + 3).value.end
  {
    CompanionIsValue(s, i, "rel", "stylesheet");
    MatchCompanion(s, i, "rel", "stylesheet")
  }
}
