/**
 * Quote removal for one shell word, as sections 2.2.2 (single quotes) and
 * 2.2.3 (double quotes) of the POSIX Shell Command Language (IEEE Std
 * 1003.1) define it.  Only literal words are modelled: a word that uses an
 * escape, an expansion or an unquoted operator character has no value here.
 */
module ShellWords {
  import opened Common
  import opened Text

  datatype QuoteState = Unquoted | InSingleQuotes | InDoubleQuotes

  /** Characters that end a word or start an escape or expansion when unquoted. */
  predicate Special(c: char)
  {
    c in " \t\n|&;<>()$`\\*?[#~"
  }

  /** Characters that keep a special meaning inside double quotes (section 2.2.3). */
  predicate SpecialInDoubleQuotes(c: char)
  {
    c in "$`\\"
  }

  function Prepend(prefix: string, rest: Option<string>): Option<string>
  {
    match rest
    case None => None
    case Some(v) => Some(prefix + v)
  }

  /**
   * The literal value of the remainder `w` of a word, read in quoting state
   * `state`; None when the word is unterminated or leaves the literal subset.
   */
  function QuoteRemoval(w: string, state: QuoteState): Option<string>
    decreases |w|
  {
    if w == [] then
      if state == Unquoted then Some([]) else None
    else
      match state
      case Unquoted =>
        if w[0] == '\'' then QuoteRemoval(w[1..], InSingleQuotes)
        else if w[0] == '"' then QuoteRemoval(w[1..], InDoubleQuotes)
        else if Special(w[0]) then None
        else Prepend([w[0]], QuoteRemoval(w[1..], Unquoted))
      case InSingleQuotes =>
        // Every character but the closing quote is literal.
        if w[0] == '\'' then QuoteRemoval(w[1..], Unquoted)
        else Prepend([w[0]], QuoteRemoval(w[1..], InSingleQuotes))
      case InDoubleQuotes =>
        if w[0] == '"' then QuoteRemoval(w[1..], Unquoted)
        else if SpecialInDoubleQuotes(w[0]) then None
        else Prepend([w[0]], QuoteRemoval(w[1..], InDoubleQuotes))
  }

  /** The value a complete word stands for. */
  function WordValue(w: string): Option<string>
  {
    QuoteRemoval(w, Unquoted)
  }

  /** What `writeFileContent` puts in place of each single quote of the content. */
  const QuoteEscape := "'\"'\"'"

  /**
   * `'` + content with every `'` replaced by `'"'"'` + `'`: the content is
   * single-quoted, and each embedded quote closes the quoting, appears
   * inside double quotes, and reopens it.
   */
  function SingleQuoted(content: string): string
  {
    "'" + Replace(content, "'", QuoteEscape) + "'"
  }

  /** `"` + path + `"`, as the file helpers quote paths. */
  function DoubleQuoted(path: string): string
  {
    "\"" + path + "\""
  }

  /** Paths the double quotes carry unchanged. */
  predicate PlainPath(path: string)
  {
    forall i :: 0 <= i < |path| ==> path[i] != '"' && !SpecialInDoubleQuotes(path[i])
  }

  lemma PrependTwice(a: string, b: string, x: Option<string>)
    ensures Prepend(a, Prepend(b, x)) == Prepend(a + b, x)
  {
    if x.Some? {
      assert a + (b + x.value) == (a + b) + x.value;
    }
  }

  lemma PrependNothing(x: Option<string>)
    ensures Prepend([], x) == x
  {
    if x.Some? {
      assert [] + x.value == x.value;
    }
  }

  /** Inside single quotes, `'"'"'` closes the quoting, yields one `'` and reopens it. */
  lemma EscapeReadsAsQuote(w: string)
    ensures QuoteRemoval(QuoteEscape + w, InSingleQuotes) == Prepend("'", QuoteRemoval(w, InSingleQuotes))
  {
    var full := QuoteEscape + w;
    assert full[0] == '\'' && full[1] == '"' && full[2] == '\'' && full[3] == '"' && full[4] == '\'';
    assert full[1..][1..] == full[2..] && full[2..][1..] == full[3..];
    assert full[3..][1..] == full[4..] && full[4..][1..] == full[5..] && full[5..] == w;
    assert QuoteRemoval(full, InSingleQuotes) == QuoteRemoval(full[1..], Unquoted);
    assert QuoteRemoval(full[1..], Unquoted) == QuoteRemoval(full[2..], InDoubleQuotes);
    assert QuoteRemoval(full[2..], InDoubleQuotes) == Prepend([full[2]], QuoteRemoval(full[3..], InDoubleQuotes));
    assert QuoteRemoval(full[3..], InDoubleQuotes) == QuoteRemoval(full[4..], Unquoted);
    assert QuoteRemoval(full[4..], Unquoted) == QuoteRemoval(w, InSingleQuotes);
  }

  lemma {:induction false} EscapedBody(content: string, tail: string)
    ensures QuoteRemoval(Replace(content, "'", QuoteEscape) + "'" + tail, InSingleQuotes)
         == Prepend(content, QuoteRemoval(tail, Unquoted))
    decreases |content|
  {
    var body := Replace(content, "'", QuoteEscape);
    if content == [] {
      assert body + "'" + tail == "'" + tail;
      assert ("'" + tail)[0] == '\'' && ("'" + tail)[1..] == tail;
      PrependNothing(QuoteRemoval(tail, Unquoted));
    } else {
      var rest := Replace(content[1..], "'", QuoteEscape);
      var w := rest + "'" + tail;
      EscapedBody(content[1..], tail);
      if content[0] == '\'' {
        assert "'" <= content;
        assert body == QuoteEscape + rest;
        assert body + "'" + tail == QuoteEscape + w;
        EscapeReadsAsQuote(w);
        PrependTwice("'", content[1..], QuoteRemoval(tail, Unquoted));
        assert content == "'" + content[1..];
      } else {
        assert !("'" <= content);
        assert body == [content[0]] + rest;
        assert (body + "'" + tail)[0] == content[0];
        assert (body + "'" + tail)[1..] == w;
        PrependTwice([content[0]], content[1..], QuoteRemoval(tail, Unquoted));
        assert content == [content[0]] + content[1..];
      }
    }
  }

  /**
   * Quote removal gives back exactly the content `writeFileContent` quoted,
   * whatever characters it holds.
   */
  lemma SingleQuotedRoundTrip(content: string)
    ensures WordValue(SingleQuoted(content)) == Some(content)
  {
    var w := SingleQuoted(content);
    assert w[0] == '\'' && w[1..] == Replace(content, "'", QuoteEscape) + "'" + "";
    EscapedBody(content, "");
    assert content + [] == content;
  }

  lemma {:induction false} DoubleQuotedBody(path: string, tail: string)
    requires PlainPath(path)
    ensures QuoteRemoval(path + "\"" + tail, InDoubleQuotes) == Prepend(path, QuoteRemoval(tail, Unquoted))
    decreases |path|
  {
    if path == [] {
      assert path + "\"" + tail == "\"" + tail;
      assert ("\"" + tail)[0] == '"' && ("\"" + tail)[1..] == tail;
      PrependNothing(QuoteRemoval(tail, Unquoted));
    } else {
      assert (path + "\"" + tail)[0] == path[0];
      assert (path + "\"" + tail)[1..] == path[1..] + "\"" + tail;
      DoubleQuotedBody(path[1..], tail);
      PrependTwice([path[0]], path[1..], QuoteRemoval(tail, Unquoted));
      assert path == [path[0]] + path[1..];
    }
  }

  /** A path free of `"`, `$`, backquote and backslash survives its double quotes. */
  lemma DoubleQuotedRoundTrip(path: string)
    requires PlainPath(path)
    ensures WordValue(DoubleQuoted(path)) == Some(path)
  {
    assert DoubleQuoted(path)[0] == '"' && DoubleQuoted(path)[1..] == path + "\"" + "";
    DoubleQuotedBody(path, "");
    assert path + [] == path;
  }

  /** A `"` inside the path ends the quoting early, so the word is not the path. */
  lemma QuoteInPathBreaksWord()
    ensures WordValue(DoubleQuoted("a\"b")) != Some("a\"b")
  {
    var w := DoubleQuoted("a\"b");
    assert w == "\"a\"b\"";
    assert w[1..][1..][1..] == "b\"";
    assert w[1..][1..][1..][1..] == "\"";
    assert w[1..][1..][1..][1..][1..] == [];
  }
}
