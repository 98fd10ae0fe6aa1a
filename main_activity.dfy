/**
 * The pure parts of the main screen: the AUI_PREFERENCES.xml template and the
 * default configuration, extracting and entity-decoding the pinned-apps JSON
 * (the `&quot;` and `&amp;` entities of section 4.6 of XML 1.0), the parse
 * loop over an already parsed JSON array, the SELinux status label and the
 * backup file names.
 */
module MainActivity {
  import opened Common
  import opened Text
  import opened AppInfoRecord

  /** The preferences file of the Oculus system UI that the app edits. */
  const TargetFile := "/data/user/0/com.oculus.systemux/shared_prefs/AUI_PREFERENCES.xml"

  // ---------------------------------------------------------------------------
  // The preferences template.
  //
  // Each constant spells the text the program writes. A literal is split
  // where a lemma below reasons about its parts (the lone `<` that starts a
  // tag, the pieces in which no `<` occurs, the cut at index 34 of
  // `HistoryOnly`): the verifier then checks short pieces instead of one
  // long literal character by character.

  const XmlDeclaration := "<" + "?xml version='1.0' " + "encoding='utf-8' " + "standalone='yes' ?>\n"
  const MapOpen := "<" + "map>\n"
  const Indent := "    "
  /** The opening tag of the pinned-apps string; 35 characters. */
  const PinnedOpen := "<string name=\"aui_bar_apps_pinned\">"
  const StringClose := "</string>"
  const HistoryLine := "\t<string name=\"aui_bar_apps_history\">[]" + StringClose + "\n"
  const MapClose := "</map>"

  /** Everything before the pinned-apps tag. */
  const Header := XmlDeclaration + MapOpen + Indent
  /** Everything after the pinned-apps text. */
  const Trailer := StringClose + "\n" + HistoryLine + MapClose

  /** Where each of four concatenated pieces sits in the whole. */
  lemma FourParts(a: string, b: string, c: string, d: string)
    ensures (a + b + c + d)[..|a|] == a
    ensures (a + b + c + d)[|a|..|a| + |b|] == b
    ensures (a + b + c + d)[|a| + |b|..|a| + |b| + |c|] == c
    ensures (a + b + c + d)[|a| + |b| + |c|..] == d
  {
  }

  /**
   * The whole preferences file with `pinned` as the (already encoded) text of
   * the pinned-apps string and an empty history.
   */
  function PreferencesXml(pinned: string): (r: string)
    ensures |r| == |Header| + |PinnedOpen| + |pinned| + |Trailer|
    ensures r[..|Header|] == Header
    ensures r[|Header|..|Header| + |PinnedOpen|] == PinnedOpen
    ensures r[|Header| + |PinnedOpen|..|Header| + |PinnedOpen| + |pinned|] == pinned
    ensures r[|Header| + |PinnedOpen| + |pinned|..] == Trailer
  {
    FourParts(Header, PinnedOpen, pinned, Trailer);
    Header + PinnedOpen + pinned + Trailer
  }

  /** The header holds no `<s`, so no tag match can start inside it, and it ends with a blank. */
  lemma HeaderShape()
    ensures !Contains(Header, "<s")
    ensures Header[|Header| - 1] == ' '
  {
    DeclarationShape();
    MapOpenShape();
    NotContainsPairConcat(XmlDeclaration, MapOpen + Indent, "<s");
    assert Header == XmlDeclaration + (MapOpen + Indent);
  }

  /** `<` starts the declaration and is not followed by `s`; no other `<` occurs in it. */
  lemma DeclarationShape()
    ensures !Contains(XmlDeclaration, "<s") && XmlDeclaration[|XmlDeclaration| - 1] == '\n'
  {
    var a := "?xml version='1.0' " + "encoding='utf-8' " + "standalone='yes' ?>\n";
    NotContainsChar(a, "<s", '<');
    NotContainsChar("<", "<s", 's');
    NotContainsPairConcat("<", a, "<s");
  }

  lemma MapOpenShape()
    ensures !Contains(MapOpen + Indent, "<s") && (MapOpen + Indent)[0] == '<'
  {
    var b := "map>\n" + Indent;
    NotContainsChar(b, "<s", '<');
    NotContainsChar("<", "<s", 's');
    NotContainsPairConcat("<", b, "<s");
    assert MapOpen + Indent == "<" + b;
  }

  // ---------------------------------------------------------------------------
  // Extracting the pinned-apps text.

  /** `i` is the first index where `open` occurs in `xml`. */
  predicate FirstAt(xml: string, open: string, i: int)
  {
    0 <= i && i + |open| <= |xml| && open <= xml[i..]
    && forall j :: 0 <= j < i ==> !StartsAt(xml, open, j)
  }

  /**
   * `v` follows the first `open` of `xml`, found at `i`, and runs up to the
   * first `close` after it.
   */
  predicate EnclosedAt(xml: string, open: string, close: string, i: int, v: string)
  {
    FirstAt(xml, open, i) && v + close <= xml[i + |open|..] && !Contains(v, close)
  }

  /**
   * The text between the first `open` and the first `close` after it, found
   * with `indexOf`, `indexOf` from the end of `open`, and `substring`.
   */
  function Enclosed(xml: string, open: string, close: string): Option<string>
    requires |open| > 0 && |close| > 0
  {
    var i := IndexOf(xml, open, 0);
    if i == -1 then None
    else
      var start := i + |open|;
      var end := IndexOf(xml, close, start);
      if end == -1 then None else Some(xml[start..end])
  }

  /**
   * The extraction as the parser writes it: the length of the tag is added
   * to the result of indexOf before the -1 check, so a missing tag gives
   * start index 34 and the check cannot fire.
   */
  function ExtractPinnedAsWritten(xml: string): (r: Option<string>)
    ensures r.Some? ==> Contains(xml, r.value + StringClose) && !Contains(r.value, StringClose)
  {
    EnclosedAsWritten(xml, PinnedOpen, StringClose)
  }

  /**
   * The text from the index past `open` (found or not) up to the first
   * `close` from there: it is followed by `close` and holds none itself.
   */
  function EnclosedAsWritten(xml: string, open: string, close: string): (r: Option<string>)
    requires |open| > 0 && |close| > 0
    ensures r.Some? ==>
              var start := IndexOf(xml, open, 0) + |open|;
              0 <= start <= |xml| && StartsAt(xml, r.value + close, start) && !Contains(r.value, close)
  {
    var start := IndexOf(xml, open, 0) + |open|;
    var end := IndexOf(xml, close, start);
    if start == -1 || end == -1 then None
    else
      IndexOfFromFirst(xml, close, start);
      NoMatchBefore(xml, close, start, end);
      PieceThenMatch(xml, start, end, close);
      Some(xml[start..end])
  }

  /** The extraction with the missing-tag check made on the index itself. */
  function ExtractPinned(xml: string): Option<string>
  {
    Enclosed(xml, PinnedOpen, StringClose)
  }

  lemma FirstAtIsIndex(xml: string, open: string, i: int)
    requires |open| > 0 && FirstAt(xml, open, i)
    ensures IndexOf(xml, open, 0) == i
  {
    FirstMatch(xml, open, 0, i);
  }

  /**
   * The first `close` at or after `start` ends `v` when `v` holds none and
   * the first character of `close` does not recur in it.
   */
  lemma CloseAfter(xml: string, close: string, start: nat, v: string)
    requires |close| > 0 && close[0] !in close[1..]
    requires start + |v| + |close| <= |xml| && v + close <= xml[start..]
    requires !Contains(v, close)
    ensures IndexOf(xml, close, start) == start + |v|
  {
    assert xml[start + |v|] == close[0];
    forall j | start <= j < start + |v|
      ensures !StartsAt(xml, close, j)
    {
      var d := j - start;
      if d + |close| <= |v| {
        assert xml[j..][..|close|] == v[d..][..|close|];
        assert !StartsAt(v, close, d);
      } else {
        var m := start + |v| - j;
        assert xml[j..][m] == close[0];
        assert close[m] == close[1..][m - 1];
      }
    }
    assert close <= xml[start + |v|..];
    FirstMatch(xml, close, start, start + |v|);
  }

  /** What is extracted lies between the first `open` and the first `close` after it. */
  lemma EnclosedSound(xml: string, open: string, close: string)
    requires |open| > 0 && |close| > 0 && Enclosed(xml, open, close).Some?
    ensures EnclosedAt(xml, open, close, IndexOf(xml, open, 0), Enclosed(xml, open, close).value)
  {
    var i := IndexOf(xml, open, 0);
    var start := i + |open|;
    var end := IndexOf(xml, close, start);
    assert i != -1 && end != -1 && Enclosed(xml, open, close).value == xml[start..end];
    assert FirstAt(xml, open, i) by {
      IndexOfFromFirst(xml, open, 0);
    }
    assert !Contains(xml[start..end], close) by {
      IndexOfFromFirst(xml, close, start);
      NoMatchBefore(xml, close, start, end);
    }
    PieceThenMatch(xml, start, end, close);
  }

  /** Text between the first `open` and the first `close` after it is what is extracted. */
  lemma EnclosedComplete(xml: string, open: string, close: string, i: int, v: string)
    requires |open| > 0 && |close| > 0 && close[0] !in close[1..]
    requires EnclosedAt(xml, open, close, i, v)
    ensures Enclosed(xml, open, close) == Some(v)
  {
    FirstAtIsIndex(xml, open, i);
    var start := i + |open|;
    CloseAfter(xml, close, start, v);
    assert xml[start..][..|v|] == v;
    assert xml[start..start + |v|] == v;
  }

  /** Without `open` nothing is extracted. */
  lemma EnclosedMissingOpen(xml: string, open: string, close: string)
    requires |open| > 0 && |close| > 0 && !Contains(xml, open)
    ensures Enclosed(xml, open, close).None?
  {
    var i := IndexOf(xml, open, 0);
    if i != -1 {
      assert false;
    }
  }

  /** Without a `close` after the first `open` nothing is extracted. */
  lemma EnclosedMissingClose(xml: string, open: string, close: string, i: int)
    requires |open| > 0 && |close| > 0
    requires FirstAt(xml, open, i) && !Contains(xml[i + |open|..], close)
    ensures Enclosed(xml, open, close).None?
  {
    FirstAtIsIndex(xml, open, i);
    NoMatchFrom(xml, close, i + |open|);
  }

  /**
   * `open` followed by `v` and then a text that starts with `close`, after
   * a header in which `open` cannot start, encloses `v`.
   */
  lemma EnclosedAfterHeader(header: string, open: string, v: string, trailer: string, close: string)
    requires |open| >= 2 && |close| > 0 && close[0] !in close[1..]
    requires !Contains(header, open[..2]) && (header == [] || header[|header| - 1] != open[0])
    requires close <= trailer && !Contains(v, close)
    ensures Enclosed(header + open + v + trailer, open, close) == Some(v)
  {
    var xml := header + open + v + trailer;
    var h := |header|;
    forall j | 0 <= j < h
      ensures !StartsAt(xml, open, j)
    {
      if j + 2 <= h {
        PairAt(header, open[..2], j);
        if xml[j] != open[0] {
          NotStartsAtChar(xml, open, j, 0);
        } else {
          NotStartsAtChar(xml, open, j, 1);
        }
      } else {
        NotStartsAtChar(xml, open, j, 0);
      }
    }
    assert xml[h..][..|open|] == open;
    assert xml[h + |open|..] == v + trailer;
    assert v + close <= v + trailer;
    EnclosedComplete(xml, open, close, h, v);
  }

  lemma CloseTagShape()
    ensures StringClose[0] !in StringClose[1..]
  {
  }

  /**
   * The corrected extraction (`ExtractPinned`) yields `v` exactly when `v` is
   * the text between the first opening tag and the first `</string>` after
   * it. `ExtractPinnedAgrees` carries this to the code as written whenever
   * the tag is present.
   */
  lemma ExtractPinnedExactly(xml: string, v: string)
    ensures ExtractPinned(xml) == Some(v) <==> exists i :: EnclosedAt(xml, PinnedOpen, StringClose, i, v)
  {
    if ExtractPinned(xml) == Some(v) {
      EnclosedSound(xml, PinnedOpen, StringClose);
    }
    if exists i :: EnclosedAt(xml, PinnedOpen, StringClose, i, v) {
      var i :| EnclosedAt(xml, PinnedOpen, StringClose, i, v);
      CloseTagShape();
      EnclosedComplete(xml, PinnedOpen, StringClose, i, v);
    }
  }

  /**
   * The corrected extraction (`ExtractPinned`) fails when the opening tag is
   * missing, and when no `</string>` follows the first one; the intended
   * parser (`IntendedPreferences`) then reports that it could not find the
   * pinned-apps data. The code as written fails only in the second case
   * (`NotFoundAsWritten`).
   */
  lemma ExtractPinnedFails(xml: string, i: int)
    ensures !Contains(xml, PinnedOpen) ==> ExtractPinned(xml).None?
    ensures FirstAt(xml, PinnedOpen, i) && !Contains(xml[i + |PinnedOpen|..], StringClose) ==>
              ExtractPinned(xml).None?
  {
    if !Contains(xml, PinnedOpen) {
      EnclosedMissingOpen(xml, PinnedOpen, StringClose);
    }
    if FirstAt(xml, PinnedOpen, i) && !Contains(xml[i + |PinnedOpen|..], StringClose) {
      EnclosedMissingClose(xml, PinnedOpen, StringClose, i);
    }
  }

  /** When the opening tag is present the code as written and the checked extraction agree. */
  lemma ExtractPinnedAgrees(xml: string)
    requires Contains(xml, PinnedOpen)
    ensures ExtractPinnedAsWritten(xml) == ExtractPinned(xml)
  {
    EnclosedAgrees(xml, PinnedOpen, StringClose);
  }

  lemma EnclosedAgrees(xml: string, open: string, close: string)
    requires |open| > 0 && |close| > 0 && Contains(xml, open)
    ensures EnclosedAsWritten(xml, open, close) == Enclosed(xml, open, close)
  {
    var k :| 0 <= k <= |xml| && StartsAt(xml, open, k);
    IndexOfFromFirst(xml, open, 0);
  }

  /**
   * Without `open` the code as written starts one character before the
   * length of `open` and takes the text up to the first `close` from there.
   */
  lemma AsWrittenMissingOpen(xml: string, open: string, close: string, v: string)
    requires |open| > 0 && |close| > 0 && close[0] !in close[1..] && !Contains(xml, open)
    requires |open| - 1 + |v| + |close| <= |xml| && v + close <= xml[|open| - 1..] && !Contains(v, close)
    ensures EnclosedAsWritten(xml, open, close) == Some(v)
  {
    var start := |open| - 1;
    EnclosedMissingOpen(xml, open, close);
    assert IndexOf(xml, open, 0) == -1;
    CloseAfter(xml, close, start, v);
    assert IndexOf(xml, close, IndexOf(xml, open, 0) + |open|) == start + |v|;
    assert xml[start..start + |v|] == xml[start..][..|v|] == v;
  }

  /** A preferences file with a history entry but no pinned-apps string. */
  const HistoryOnly := MapOpen + "\t<string name=\"aui_bar_apps_" + "history\">[]" + StringClose + "\n" + MapClose

  lemma HistoryOnlyShape()
    ensures HistoryOnly[..34] == MapOpen + "\t<string name=\"aui_bar_apps_"
    ensures HistoryOnly[34..] == "history\">[]" + StringClose + "\n" + MapClose
    ensures 'd' !in HistoryOnly
  {
    var a := MapOpen + "\t<string name=\"aui_bar_apps_";
    var b := "history\">[]";
    var c := StringClose + "\n" + MapClose;
    assert |a| == 34;
    assert 'd' !in a && 'd' !in b && 'd' !in c;
    assert HistoryOnly == a + (b + c);
  }

  /**
   * Without the opening tag, the code as written takes the text from index
   * 34 to the first `</string>`: part of the history tag and its value.
   */
  lemma MissingTagMisread()
    ensures !Contains(HistoryOnly, PinnedOpen)
    ensures ExtractPinned(HistoryOnly) == None
    ensures ExtractPinnedAsWritten(HistoryOnly) == Some("history\">[]")
  {
    var b := "history\">[]";
    HistoryOnlyShape();
    assert 'd' in PinnedOpen;
    NotContainsChar(HistoryOnly, PinnedOpen, 'd');
    EnclosedMissingOpen(HistoryOnly, PinnedOpen, StringClose);
    NotContainsChar(b, StringClose, '<');
    CloseTagShape();
    assert |PinnedOpen| - 1 == 34;
    assert b + StringClose <= HistoryOnly[34..];
    AsWrittenMissingOpen(HistoryOnly, PinnedOpen, StringClose, b);
  }

  /**
   * Whatever is written into the template as the pinned-apps text comes back
   * out of it, provided it holds no `</string>` of its own.
   */
  lemma ExtractTemplate(pinned: string)
    requires !Contains(pinned, StringClose)
    ensures ExtractPinned(PreferencesXml(pinned)) == Some(pinned)
    ensures ExtractPinnedAsWritten(PreferencesXml(pinned)) == Some(pinned)
  {
    TemplateEnclosed(pinned);
    TemplateHasTag(pinned);
    ExtractPinnedAgrees(PreferencesXml(pinned));
  }

  lemma TemplateEnclosed(pinned: string)
    requires !Contains(pinned, StringClose)
    ensures ExtractPinned(PreferencesXml(pinned)) == Some(pinned)
  {
    HeaderShape();
    CloseTagShape();
    assert PinnedOpen[..2] == "<s" by {
      assert PinnedOpen[0] == '<' && PinnedOpen[1] == 's';
    }
    assert StringClose <= Trailer;
    EnclosedAfterHeader(Header, PinnedOpen, pinned, Trailer, StringClose);
  }

  /** The template holds the opening tag right after the header. */
  lemma TemplateHasTag(pinned: string)
    ensures Contains(PreferencesXml(pinned), PinnedOpen)
  {
    assert StartsAt(PreferencesXml(pinned), PinnedOpen, |Header|);
  }

  // ---------------------------------------------------------------------------
  // Entity decoding.

  const Quot := "&quot;"
  const Amp := "&amp;"

  /**
   * `&quot;` becomes `"`, and only then `&amp;` becomes `&`; text without
   * any `&` holds no entity and is left as it is.
   */
  function DecodeEntities(text: string): (r: string)
    ensures '&' !in text ==> r == text
  {
    NoEntities(text);
    Replace(Replace(text, Quot, "\""), Amp, "&")
  }

  lemma NoEntities(text: string)
    ensures '&' !in text ==> Replace(Replace(text, Quot, "\""), Amp, "&") == text
  {
    if '&' !in text {
      NotContainsChar(text, Quot, '&');
      ReplaceAbsent(text, Quot, "\"");
      NotContainsChar(text, Amp, '&');
      ReplaceAbsent(text, Amp, "&");
    }
  }

  /** Replacing `"` by `&quot;` and back gives the text again when it holds no `&`. */
  lemma {:induction false} QuoteEntityInverse(json: string)
    requires '&' !in json
    ensures Replace(Replace(json, "\"", Quot), Quot, "\"") == json
    decreases |json|
  {
    if json != [] {
      var rest := Replace(json[1..], "\"", Quot);
      QuoteEntityInverse(json[1..]);
      if json[0] == '"' {
        assert "\"" <= json;
        var t := Quot + rest;
        assert Quot <= t && t[|Quot|..] == rest;
        assert json == "\"" + json[1..];
      } else {
        assert !("\"" <= json);
        var t := [json[0]] + rest;
        assert !(Quot <= t) by { assert t[0] == json[0] != '&'; }
        assert t[1..] == rest;
        assert json == [json[0]] + json[1..];
      }
    }
  }

  /**
   * Encoding the quotes as `&quot;` and decoding the entities gives back
   * any text free of `&`.
   */
  lemma QuoteEntityRoundTrip(json: string)
    requires '&' !in json
    ensures DecodeEntities(Replace(json, "\"", Quot)) == json
  {
    QuoteEntityInverse(json);
    NotContainsChar(json, Amp, '&');
    ReplaceAbsent(json, Amp, "&");
  }

  /**
   * Decoding is a single pass per entity in a fixed order, so an escaped
   * entity is decoded only once: `&amp;` followed by text free of `&`
   * decodes to `&` and that text, whatever the text is.
   */
  lemma DecodeAmpOnce(t: string)
    requires '&' !in t
    ensures DecodeEntities(Amp + t) == "&" + t
  {
    var s := Amp + t;
    assert !(Quot <= s) by { assert s[1] != Quot[1]; }
    assert s[1..] == "amp;" + t;
    NotContainsChar("amp;" + t, Quot, '&');
    ReplaceAbsent("amp;" + t, Quot, "\"");
    assert Replace(s, Quot, "\"") == s;
    assert Amp <= s && s[|Amp|..] == t;
    NotContainsChar(t, Amp, '&');
    ReplaceAbsent(t, Amp, "&");
  }

  /** `&amp;quot;` decodes to `&quot;`, not to `"`. */
  lemma DecodeOnce()
    ensures DecodeEntities(Amp + "quot;") == Quot
  {
    DecodeAmpOnce("quot;");
  }

  // ---------------------------------------------------------------------------
  // The default configuration.

  /** A piece of JSON text: literal text, or a double quote to be rendered. */
  datatype Piece = Lit(text: string) | Quote

  /** The text of `pieces` with every double quote written as `quote`. */
  function Render(pieces: seq<Piece>, quote: string): string
    decreases |pieces|
  {
    if pieces == [] then []
    else (match pieces[0] case Lit(t) => t case Quote => quote) + Render(pieces[1..], quote)
  }

  /** No literal piece holds `c`. */
  predicate LiteralsAvoid(pieces: seq<Piece>, c: char)
  {
    forall i :: 0 <= i < |pieces| ==> pieces[i].Lit? ==> c !in pieces[i].text
  }

  lemma {:induction false} RenderConcat(a: seq<Piece>, b: seq<Piece>, quote: string)
    ensures Render(a + b, quote) == Render(a, quote) + Render(b, quote)
    decreases |a|
  {
    if a == [] {
      assert a + b == b;
    } else {
      assert (a + b)[0] == a[0] && (a + b)[1..] == a[1..] + b;
      RenderConcat(a[1..], b, quote);
    }
  }

  /** A character absent from every literal and from the quote is absent from the text. */
  lemma {:induction false} RenderAvoids(pieces: seq<Piece>, quote: string, c: char)
    requires LiteralsAvoid(pieces, c) && c !in quote
    ensures c !in Render(pieces, quote)
    decreases |pieces|
  {
    if pieces != [] {
      assert LiteralsAvoid(pieces[1..], c) by {
        forall i | 0 <= i < |pieces[1..]| ensures pieces[1..][i] == pieces[i + 1] { }
      }
      RenderAvoids(pieces[1..], quote, c);
    }
  }

  /** Writing the quotes as `"` and then encoding them gives the text with the quotes as `&quot;`. */
  lemma {:induction false} RenderEncodes(pieces: seq<Piece>)
    requires LiteralsAvoid(pieces, '"')
    ensures Replace(Render(pieces, "\""), "\"", Quot) == Render(pieces, Quot)
    decreases |pieces|
  {
    if pieces != [] {
      var head := match pieces[0] case Lit(t) => t case Quote => "\"";
      assert LiteralsAvoid(pieces[1..], '"') by {
        forall i | 0 <= i < |pieces[1..]| ensures pieces[1..][i] == pieces[i + 1] { }
      }
      RenderEncodes(pieces[1..]);
      ReplaceCharConcat(head, Render(pieces[1..], "\""), "\"", Quot);
      if pieces[0].Lit? {
        NotContainsChar(head, "\"", '"');
        ReplaceAbsent(head, "\"", Quot);
      } else {
        assert "\"" <= head && head[1..] == [];
        assert Replace(head, "\"", Quot) == Quot + [];
      }
    }
  }

  /** One default entry: a system app pinned by package name alone. */
  function EntryPieces(packageName: string): seq<Piece>
  {
    EntryHead + [Lit(packageName)] + EntryTail
  }

  const EntryHead := [Lit("{"), Quote, Lit("packageName"), Quote, Lit(":"), Quote]

  const EntryTail := [Quote, Lit(","), Quote, Lit("type"), Quote, Lit(":"), Quote, Lit(DefaultType), Quote, Lit(","),
                      Quote, Lit("platformName"), Quote, Lit(":"), Quote, Lit(DefaultPlatform), Quote, Lit("}")]

  /** The entries for `packages`, separated by `, `. */
  function JoinedEntries(packages: seq<string>): seq<Piece>
    decreases |packages|
  {
    if packages == [] then []
    else if |packages| == 1 then EntryPieces(packages[0])
    else EntryPieces(packages[0]) + [Lit(", ")] + JoinedEntries(packages[1..])
  }

  /** Explore, Store, Messenger, Share and Browser, in dock order. */
  const DefaultPackages := ["com.oculus.explore", "com.oculus.store", "messenger_system_app",
                            "share_system_app", "com.oculus.browser"]

  const DefaultPieces := [Lit("[")] + JoinedEntries(DefaultPackages) + [Lit("]")]

  /** The pinned-apps text of the default configuration, quotes written as `&quot;`. */
  const DefaultPinnedEncoded := Render(DefaultPieces, Quot)

  /** The same text with plain quotes: the JSON array the default configuration pins. */
  const DefaultPinnedJson := Render(DefaultPieces, "\"")

  /** The file written when restoring the default configuration. */
  const DefaultAuiPreferences := PreferencesXml(DefaultPinnedEncoded)

  /** The JSON object of one default entry. */
  function DefaultObject(packageName: string): string
  {
    Render(EntryPieces(packageName), "\"")
  }

  /** The JSON object of each default entry, in order. */
  function DefaultObjects(packages: seq<string>): (r: seq<string>)
    ensures |r| == |packages|
    ensures forall i :: 0 <= i < |packages| ==> r[i] == DefaultObject(packages[i])
    decreases |packages|
  {
    if packages == [] then [] else [DefaultObject(packages[0])] + DefaultObjects(packages[1..])
  }

  /** `objects` separated by `, `. */
  function JoinObjects(objects: seq<string>): string
    decreases |objects|
  {
    if objects == [] then ""
    else if |objects| == 1 then objects[0]
    else objects[0] + ", " + JoinObjects(objects[1..])
  }

  lemma EntryAvoids(packageName: string, c: char)
    requires c in "\"&<" && c !in packageName
    ensures LiteralsAvoid(EntryPieces(packageName), c)
  {
    EntryTailAvoids(c);
    LiteralsAvoidConcat(EntryHead, [Lit(packageName)], c);
    LiteralsAvoidConcat(EntryHead + [Lit(packageName)], EntryTail, c);
  }

  lemma EntryTailAvoids(c: char)
    requires c in "\"&<"
    ensures LiteralsAvoid(EntryTail, c)
  {
    TailTextsAvoid(c);
    forall i | 0 <= i < |EntryTail| && EntryTail[i].Lit?
      ensures c !in EntryTail[i].text
    {
      assert EntryTail[i].text in {",", "type", ":", DefaultType, "platformName", DefaultPlatform, "}"};
    }
  }

  lemma TailTextsAvoid(c: char)
    requires c in "\"&<"
    ensures c !in "," && c !in "type" && c !in ":" && c !in "platformName" && c !in "}"
    ensures c !in DefaultType && c !in DefaultPlatform
  {
  }

  lemma LiteralsAvoidConcat(a: seq<Piece>, b: seq<Piece>, c: char)
    requires LiteralsAvoid(a, c) && LiteralsAvoid(b, c)
    ensures LiteralsAvoid(a + b, c)
  {
    forall i | 0 <= i < |a + b| && (a + b)[i].Lit?
      ensures c !in (a + b)[i].text
    {
      if i >= |a| {
        assert (a + b)[i] == b[i - |a|];
      }
    }
  }

  lemma {:induction false} JoinedAvoids(packages: seq<string>, c: char)
    requires c in "\"&<"
    requires forall i :: 0 <= i < |packages| ==> c !in packages[i]
    ensures LiteralsAvoid(JoinedEntries(packages), c)
    decreases |packages|
  {
    if packages != [] {
      EntryAvoids(packages[0], c);
      if |packages| > 1 {
        JoinedAvoids(packages[1..], c);
      }
    }
  }

  /** The joined entries render as the entries' JSON objects joined by `, `, in order. */
  lemma {:induction false} JoinedRender(packages: seq<string>)
    ensures Render(JoinedEntries(packages), "\"") == JoinObjects(DefaultObjects(packages))
    decreases |packages|
  {
    if |packages| > 1 {
      JoinedRender(packages[1..]);
      RenderConcat(EntryPieces(packages[0]) + [Lit(", ")], JoinedEntries(packages[1..]), "\"");
      RenderConcat(EntryPieces(packages[0]), [Lit(", ")], "\"");
      assert Render([Lit(", ")], "\"") == ", " + [];
    }
  }

  /**
   * JSON text whose literals hold no `"`, `&` or `<`, written into the
   * template with its quotes as `&quot;`, is extracted and decoded back.
   */
  lemma PiecesRoundTrip(pieces: seq<Piece>)
    requires LiteralsAvoid(pieces, '"') && LiteralsAvoid(pieces, '&') && LiteralsAvoid(pieces, '<')
    ensures ExtractPinned(PreferencesXml(Render(pieces, Quot))) == Some(Render(pieces, Quot))
    ensures ExtractPinnedAsWritten(PreferencesXml(Render(pieces, Quot))) == Some(Render(pieces, Quot))
    ensures DecodeEntities(Render(pieces, Quot)) == Render(pieces, "\"")
  {
    RenderAvoids(pieces, Quot, '<');
    NotContainsChar(Render(pieces, Quot), StringClose, '<');
    ExtractTemplate(Render(pieces, Quot));
    RenderEncodes(pieces);
    RenderAvoids(pieces, "\"", '&');
    QuoteEntityRoundTrip(Render(pieces, "\""));
  }

  lemma DefaultPiecesAvoid(c: char)
    requires c in "\"&<"
    ensures LiteralsAvoid(DefaultPieces, c)
  {
    DefaultPackagesAvoid(c);
    JoinedAvoids(DefaultPackages, c);
    LiteralsAvoidConcat([Lit("[")], JoinedEntries(DefaultPackages), c);
    LiteralsAvoidConcat([Lit("[")] + JoinedEntries(DefaultPackages), [Lit("]")], c);
  }

  lemma DefaultPackagesAvoid(c: char)
    requires c in "\"&<"
    ensures forall i :: 0 <= i < |DefaultPackages| ==> c !in DefaultPackages[i]
  {
  }

  /** The bracketed array renders as `[`, the joined objects and `]`. */
  lemma BracketedRender(middle: seq<Piece>)
    ensures Render([Lit("[")] + middle + [Lit("]")], "\"") == "[" + Render(middle, "\"") + "]"
  {
    RenderConcat([Lit("[")] + middle, [Lit("]")], "\"");
    RenderConcat([Lit("[")], middle, "\"");
    assert Render([Lit("[")], "\"") == "[" + [];
    assert Render([Lit("]")], "\"") == "]" + [];
  }

  /**
   * Restoring the default configuration writes a file whose pinned-apps text
   * decodes to the five default entries, in dock order.
   */
  lemma DefaultPreferencesDecode()
    ensures ExtractPinned(DefaultAuiPreferences) == Some(DefaultPinnedEncoded)
    ensures ExtractPinnedAsWritten(DefaultAuiPreferences) == Some(DefaultPinnedEncoded)
    ensures DecodeEntities(DefaultPinnedEncoded) == DefaultPinnedJson
    ensures DefaultPinnedJson == "[" + JoinObjects(DefaultObjects(DefaultPackages)) + "]"
  {
    DefaultPiecesAvoid('"');
    DefaultPiecesAvoid('&');
    DefaultPiecesAvoid('<');
    PiecesRoundTrip(DefaultPieces);
    BracketedRender(JoinedEntries(DefaultPackages));
    JoinedRender(DefaultPackages);
  }

  // ---------------------------------------------------------------------------
  // Parsing the pinned apps.

  /**
   * One element of the parsed JSON array: an object, given by the string
   * value of each of its keys, or anything that is not an object.
   */
  datatype JsonElement = ObjectElement(fields: map<string, string>) | OtherElement

  /** The JSON array parser: the elements of the text, or None when it is not a JSON array. */
  type ArrayParse = string -> Option<seq<JsonElement>>

  /** "Could not find pinned apps data in file", or a JSON parsing failure. */
  datatype ParseFailure = PinnedDataNotFound | JsonInvalid

  /**
   * The entry for one array element: `packageName`, `type` and
   * `platformName` are required, `activity` defaults to the empty string.
   */
  function EntryFromObject(e: JsonElement, render: JsonRender): (r: Option<AppInfo>)
    ensures r.Some? <==> e.ObjectElement? && "packageName" in e.fields && "type" in e.fields && "platformName" in e.fields
    ensures r.Some? ==>
              && r.value.packageName == Some(e.fields["packageName"])
              && r.value.appType == Some(e.fields["type"])
              && r.value.platformName == Some(e.fields["platformName"])
              && r.value.activity == Some(if "activity" in e.fields then e.fields["activity"] else "")
              && ("activity" !in e.fields ==> r.value.componentName == Some(""))
  {
    match e
    case OtherElement => None
    case ObjectElement(fields) =>
      if "packageName" in fields && "type" in fields && "platformName" in fields then
        var activity := OptString(fields, "activity", "");
        Some(NewAppInfo(fields["packageName"], fields["type"], fields["platformName"], Some(activity), render))
      else None
  }

  /** The entries for all elements, in order, or None when any element is not a valid entry. */
  function Entries(elements: seq<JsonElement>, render: JsonRender): (r: Option<seq<AppInfo>>)
    ensures r.Some? ==> |r.value| == |elements|
    decreases |elements|
  {
    if elements == [] then Some([])
    else
      match Entries(elements[..|elements| - 1], render)
      case None => None
      case Some(init) =>
        match EntryFromObject(elements[|elements| - 1], render)
        case None => None
        case Some(last) => Some(init + [last])
  }

  /** Entries succeed exactly when every element is a valid entry, and then keep array order. */
  lemma {:induction false} EntriesExactly(elements: seq<JsonElement>, render: JsonRender)
    ensures Entries(elements, render).Some? <==>
              forall i :: 0 <= i < |elements| ==> EntryFromObject(elements[i], render).Some?
    ensures Entries(elements, render).Some? ==>
              |Entries(elements, render).value| == |elements|
              && forall i :: 0 <= i < |elements| ==>
                   Entries(elements, render).value[i] == EntryFromObject(elements[i], render).value
    decreases |elements|
  {
    if elements != [] {
      var init := elements[..|elements| - 1];
      EntriesExactly(init, render);
      forall i | 0 <= i < |init| ensures init[i] == elements[i] { }
    }
  }

  /** What parsing gives once the pinned-apps text is extracted, or why it fails. */
  function ParsedText(extracted: Option<string>, parseArray: ArrayParse, render: JsonRender): Result<seq<AppInfo>, ParseFailure>
  {
    match extracted
    case None => Err(PinnedDataNotFound)
    case Some(text) =>
      match parseArray(DecodeEntities(text))
      case None => Err(JsonInvalid)
      case Some(elements) =>
        match Entries(elements, render)
        case None => Err(JsonInvalid)
        case Some(apps) => Ok(apps)
  }

  /**
   * What the parser returns for a file, with the extraction as written:
   * the entries of the decoded pinned-apps array, or why it fails.
   */
  function ParsedPreferences(xml: string, parseArray: ArrayParse, render: JsonRender): Result<seq<AppInfo>, ParseFailure>
  {
    ParsedText(ExtractPinnedAsWritten(xml), parseArray, render)
  }

  /**
   * The parser as written reports missing pinned-apps data exactly when no
   * `</string>` follows the index it computes, `indexOf` of the tag plus 35.
   * A missing tag alone never makes it fail.
   */
  lemma NotFoundAsWritten(xml: string, parseArray: ArrayParse, render: JsonRender)
    ensures ParsedPreferences(xml, parseArray, render) == Err(PinnedDataNotFound)
        <==> IndexOf(xml, StringClose, IndexOf(xml, PinnedOpen, 0) + |PinnedOpen|) == -1
  {
    var start := IndexOf(xml, PinnedOpen, 0) + |PinnedOpen|;
    assert start >= |PinnedOpen| - 1;
    assert ExtractPinnedAsWritten(xml).None? <==> IndexOf(xml, StringClose, start) == -1;
  }

  /** The parser with the missing-tag check made on the index itself. */
  function IntendedPreferences(xml: string, parseArray: ArrayParse, render: JsonRender): Result<seq<AppInfo>, ParseFailure>
  {
    ParsedText(ExtractPinned(xml), parseArray, render)
  }

  /**
   * The parser as written and the intended one agree on every file that
   * holds the opening tag; on a file without it the intended one reports
   * that the pinned-apps data is missing.
   */
  lemma PreferencesAgree(xml: string, parseArray: ArrayParse, render: JsonRender)
    ensures Contains(xml, PinnedOpen) ==>
              ParsedPreferences(xml, parseArray, render) == IntendedPreferences(xml, parseArray, render)
    ensures !Contains(xml, PinnedOpen) ==> IntendedPreferences(xml, parseArray, render) == Err(PinnedDataNotFound)
  {
    if Contains(xml, PinnedOpen) {
      ExtractPinnedAgrees(xml);
    } else {
      ExtractPinnedFails(xml, 0);
    }
  }

  /**
   * On a file with a history entry and no pinned-apps string the parser as
   * written does not report missing data: it hands `history">[]` to the
   * JSON parser, whose verdict decides the outcome.
   */
  lemma MissingTagParsed(parseArray: ArrayParse, render: JsonRender)
    ensures ParsedPreferences(HistoryOnly, parseArray, render)
         == ParsedText(Some("history\">[]"), parseArray, render)
    ensures IntendedPreferences(HistoryOnly, parseArray, render) == Err(PinnedDataNotFound)
  {
    MissingTagMisread();
  }

  lemma EntriesPrefixFails(elements: seq<JsonElement>, i: nat, render: JsonRender)
    requires i < |elements| && EntryFromObject(elements[i], render).None?
    ensures Entries(elements, render).None?
  {
    EntriesExactly(elements, render);
  }

  /**
   * `parseAuiPreferences`: extracts the pinned-apps text as written, decodes
   * it, parses it, and builds one entry per array element in order.
   */
  method ParseAuiPreferences(xml: string, parseArray: ArrayParse, render: JsonRender)
    returns (r: Result<seq<AppInfo>, ParseFailure>)
    ensures r == ParsedPreferences(xml, parseArray, render)
  {
    var start := IndexOf(xml, PinnedOpen, 0) + |PinnedOpen|;
    var end := IndexOf(xml, StringClose, start);
    if start == -1 || end == -1 {
      return Err(PinnedDataNotFound);
    }
    var json := xml[start..end];
    json := DecodeEntities(json);
    var parsed := parseArray(json);
    if parsed.None? {
      return Err(JsonInvalid);
    }
    ParsedFrom(xml, xml[start..end], parsed.value, parseArray, render);
    var apps := BuildEntries(parsed.value, render);
    if apps.None? {
      return Err(JsonInvalid);
    }
    return Ok(apps.value);
  }

  /**
   * The loop of `parseAuiPreferences`: an entry for each array element in
   * turn, stopping at the first element that is not a valid entry.
   */
  method BuildEntries(elements: seq<JsonElement>, render: JsonRender) returns (r: Option<seq<AppInfo>>)
    ensures r == Entries(elements, render)
  {
    var apps: seq<AppInfo> := [];
    var k := 0;
    while k < |elements|
      invariant 0 <= k <= |elements|
      invariant Entries(elements[..k], render) == Some(apps)
    {
      var entry := EntryFromObject(elements[k], render);
      if entry.None? {
        EntriesPrefixFails(elements, k, render);
        return None;
      }
      apps := apps + [entry.value];
      assert elements[..k + 1][..k] == elements[..k];
      k := k + 1;
    }
    assert elements[..k] == elements;
    return Some(apps);
  }

  /**
   * `apps` has one entry per element, in order, each with the element's
   * package name and an activity that defaults to the empty string.
   */
  predicate EntriesMatch(elements: seq<JsonElement>, apps: seq<AppInfo>)
  {
    |apps| == |elements|
    && forall i :: 0 <= i < |elements| ==>
         elements[i].ObjectElement? && "packageName" in elements[i].fields
         && apps[i].packageName == Some(elements[i].fields["packageName"])
         && apps[i].activity == Some(if "activity" in elements[i].fields then elements[i].fields["activity"] else "")
  }

  lemma EntriesOrder(elements: seq<JsonElement>, render: JsonRender)
    requires Entries(elements, render).Some?
    ensures EntriesMatch(elements, Entries(elements, render).value)
  {
    EntriesExactly(elements, render);
    var apps := Entries(elements, render).value;
    forall i | 0 <= i < |elements|
      ensures elements[i].ObjectElement? && "packageName" in elements[i].fields
      ensures apps[i].packageName == Some(elements[i].fields["packageName"])
      ensures apps[i].activity == Some(if "activity" in elements[i].fields then elements[i].fields["activity"] else "")
    {
      assert EntryFromObject(elements[i], render).Some?;
    }
  }

  /**
   * A successful parse has one entry per element of the decoded array, in
   * array order, with `activity` defaulting to the empty string.
   */
  lemma ParsedPreferencesOrder(xml: string, parseArray: ArrayParse, render: JsonRender)
    requires ParsedPreferences(xml, parseArray, render).Ok?
    ensures ExtractPinnedAsWritten(xml).Some?
    ensures parseArray(DecodeEntities(ExtractPinnedAsWritten(xml).value)).Some?
    ensures EntriesMatch(parseArray(DecodeEntities(ExtractPinnedAsWritten(xml).value)).value,
                         ParsedPreferences(xml, parseArray, render).value)
  {
    var elements := parseArray(DecodeEntities(ExtractPinnedAsWritten(xml).value)).value;
    EntriesOrder(elements, render);
  }

  /** The objects the JSON parser finds in the default array. */
  function DefaultElements(): seq<JsonElement>
  {
    seq(5, i requires 0 <= i < 5 =>
      ObjectElement(map["packageName" := DefaultPackages[i], "type" := DefaultType, "platformName" := DefaultPlatform]))
  }

  /**
   * Loading the default configuration gives the five default apps in dock
   * order, each without an activity or component name.
   */
  lemma DefaultPreferencesParse(parseArray: ArrayParse, render: JsonRender)
    requires parseArray(DefaultPinnedJson) == Some(DefaultElements())
    ensures var r := ParsedPreferences(DefaultAuiPreferences, parseArray, render);
            r.Ok? && |r.value| == 5
            && forall i :: 0 <= i < 5 ==>
                 r.value[i].packageName == Some(DefaultPackages[i])
                 && r.value[i].activity == Some("") && r.value[i].componentName == Some("")
  {
    DefaultPreferencesDecode();
    var elements := DefaultElements();
    ParsedFrom(DefaultAuiPreferences, DefaultPinnedEncoded, elements, parseArray, render);
    EntriesExactly(elements, render);
    DefaultEntries(render);
  }

  lemma ParsedFrom(xml: string, text: string, elements: seq<JsonElement>, parseArray: ArrayParse, render: JsonRender)
    requires ExtractPinnedAsWritten(xml) == Some(text) && parseArray(DecodeEntities(text)) == Some(elements)
    ensures ParsedPreferences(xml, parseArray, render)
         == if Entries(elements, render).Some? then Ok(Entries(elements, render).value) else Err(JsonInvalid)
  {
  }

  lemma DefaultEntries(render: JsonRender)
    ensures forall i :: 0 <= i < 5 ==>
              var e := EntryFromObject(DefaultElements()[i], render);
              e.Some? && e.value.packageName == Some(DefaultPackages[i])
              && e.value.activity == Some("") && e.value.componentName == Some("")
  {
  }

  // ---------------------------------------------------------------------------
  // The SELinux status label.

  const SelinuxPrefix := "SELinux: "
  const EnforcingLabel := SelinuxPrefix + "Enforcing \U{26A0}\U{FE0F}"
  const PermissiveLabel := SelinuxPrefix + "Permissive \U{2713}"

  /** The status line shown for the reply to `getenforce`. */
  function SelinuxLabel(reply: string): (r: string)
    ensures SelinuxPrefix <= r
  {
    var output := Trim(reply);
    if EqualsIgnoreCase("Enforcing", output) then EnforcingLabel
    else if EqualsIgnoreCase("Permissive", output) then PermissiveLabel
    else SelinuxPrefix + output + " ?"
  }

  /**
   * The label is the Enforcing one exactly when the trimmed reply is
   * "Enforcing" in any letter case, the Permissive one exactly when it is
   * "Permissive" in any letter case, and otherwise it shows the trimmed reply
   * followed by " ?".
   */
  lemma SelinuxLabelCases(reply: string)
    ensures SelinuxLabel(reply) == EnforcingLabel <==> EqualsIgnoreCase("Enforcing", Trim(reply))
    ensures SelinuxLabel(reply) == PermissiveLabel <==> EqualsIgnoreCase("Permissive", Trim(reply))
    ensures !EqualsIgnoreCase("Enforcing", Trim(reply)) && !EqualsIgnoreCase("Permissive", Trim(reply)) ==>
              SelinuxLabel(reply) == SelinuxPrefix + Trim(reply) + " ?"
  {
    var other := SelinuxPrefix + Trim(reply) + " ?";
    assert other[|other| - 1] == '?';
    assert EnforcingLabel[|EnforcingLabel| - 1] == '\U{FE0F}';
    assert PermissiveLabel[|PermissiveLabel| - 1] == '\U{2713}';
  }

  // ---------------------------------------------------------------------------
  // Backup file names.

  /** A local date and time, as SimpleDateFormat reads it from the clock. */
  datatype DateTime = DateTime(year: nat, month: nat, day: nat, hour: nat, minute: nat, second: nat)

  /** Every field fits its width in the `yyyyMMdd_HHmmss` pattern. */
  predicate FitsPattern(t: DateTime)
  {
    t.year < 10000 && t.month < 100 && t.day < 100 && t.hour < 100 && t.minute < 100 && t.second < 100
  }

  /** `yyyyMMdd_HHmmss`. */
  function Timestamp(t: DateTime): string
  {
    ZeroPadded(t.year, 4) + ZeroPadded(t.month, 2) + ZeroPadded(t.day, 2) + "_"
    + ZeroPadded(t.hour, 2) + ZeroPadded(t.minute, 2) + ZeroPadded(t.second, 2)
  }

  const BackupPrefix := "AUI_PREFERENCES_"
  const BackupExtension := ".xml"

  function BackupFileName(t: DateTime): string
  {
    BackupPrefix + Timestamp(t) + BackupExtension
  }

  /** The backup directory lists only names ending in `.xml`. */
  predicate IsBackupName(name: string)
  {
    EndsWith(name, BackupExtension)
  }

  /** The names of the backup directory that are offered, in directory order. */
  function ListedBackups(names: seq<string>): (r: seq<string>)
    ensures forall n :: n in r <==> n in names && IsBackupName(n)
    ensures |r| <= |names|
  {
    if names == [] then []
    else (if IsBackupName(names[0]) then [names[0]] else []) + ListedBackups(names[1..])
  }

  lemma PaddedWidth(n: nat, w: nat)
    requires w >= 1 && n < Pow10(w)
    ensures |ZeroPadded(n, w)| == w
  {
    DecimalWidth(n, w);
  }

  /** Where each field of `yyyyMMdd_HHmmss` sits once the fields have their widths. */
  lemma TimestampParts(y: string, mo: string, d: string, h: string, mi: string, s: string)
    requires |y| == 4 && |mo| == 2 && |d| == 2 && |h| == 2 && |mi| == 2 && |s| == 2
    ensures var ts := y + mo + d + "_" + h + mi + s;
            |ts| == 15 && ts[8] == '_'
            && ts[0..4] == y && ts[4..6] == mo && ts[6..8] == d
            && ts[9..11] == h && ts[11..13] == mi && ts[13..15] == s
  {
  }

  /**
   * A timestamp is 15 characters; each field sits at its fixed place and
   * reads back as the field's value.
   */
  lemma TimestampFields(t: DateTime)
    requires FitsPattern(t)
    ensures var ts := Timestamp(t);
            |ts| == 15 && ts[8] == '_'
            && DecimalValue(ts[0..4]) == t.year && DecimalValue(ts[4..6]) == t.month
            && DecimalValue(ts[6..8]) == t.day && DecimalValue(ts[9..11]) == t.hour
            && DecimalValue(ts[11..13]) == t.minute && DecimalValue(ts[13..15]) == t.second
  {
    var y, mo, d := ZeroPadded(t.year, 4), ZeroPadded(t.month, 2), ZeroPadded(t.day, 2);
    var h, mi, s := ZeroPadded(t.hour, 2), ZeroPadded(t.minute, 2), ZeroPadded(t.second, 2);
    assert Pow10(4) == 10000 && Pow10(2) == 100;
    PaddedWidth(t.year, 4);
    PaddedWidth(t.month, 2);
    PaddedWidth(t.day, 2);
    PaddedWidth(t.hour, 2);
    PaddedWidth(t.minute, 2);
    PaddedWidth(t.second, 2);
    TimestampParts(y, mo, d, h, mi, s);
    ZeroPaddedValue(t.year, 4);
    ZeroPaddedValue(t.month, 2);
    ZeroPaddedValue(t.day, 2);
    ZeroPaddedValue(t.hour, 2);
    ZeroPaddedValue(t.minute, 2);
    ZeroPaddedValue(t.second, 2);
  }

  /**
   * A backup name is 35 characters, is listed as a backup, and carries its
   * timestamp between the prefix and the extension.
   */
  lemma BackupFileNameShape(t: DateTime)
    requires FitsPattern(t)
    ensures var name := BackupFileName(t);
            |name| == 35 && IsBackupName(name)
            && name[..16] == BackupPrefix && name[16..31] == Timestamp(t)
  {
    TimestampFields(t);
    FourParts(BackupPrefix, Timestamp(t), BackupExtension, []);
  }

  /** Backups taken at different seconds get different names, so none overwrites another. */
  lemma BackupNamesDistinct(t1: DateTime, t2: DateTime)
    requires FitsPattern(t1) && FitsPattern(t2) && t1 != t2
    ensures BackupFileName(t1) != BackupFileName(t2)
  {
    BackupFileNameShape(t1);
    BackupFileNameShape(t2);
    TimestampFields(t1);
    TimestampFields(t2);
  }

  /** Every backup the app writes is offered for restore. */
  lemma BackupIsListed(t: DateTime, names: seq<string>)
    requires FitsPattern(t) && BackupFileName(t) in names
    ensures BackupFileName(t) in ListedBackups(names)
  {
    BackupFileNameShape(t);
  }
}
