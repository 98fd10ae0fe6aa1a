/**
 * One pinned dock entry (AppInfo.java): its six string fields, the two
 * constructors that derive them, the Parcel write/read pair that carries an
 * entry between screens, and the display-name rule.
 *
 * Every field may be Java `null`, written `None`.  What org.json makes of a
 * text, how an object is rendered back to text, and the PackageManager label
 * lookup are inputs.
 */
module AppInfoRecord {
  import opened Common
  import opened Text

  datatype AppInfo = AppInfo(
    packageName: Option<string>,
    appType: Option<string>,
    platformName: Option<string>,
    activity: Option<string>,
    componentName: Option<string>,
    originalJsonString: Option<string>)

  const ParseErrorPackage := "JSON_Parse_Error"
  const ParseErrorComponent := "Error"
  const DefaultPackage := "Unknown"
  const DefaultType := "APP"
  const DefaultPlatform := "ANDROID_6DOF"

  // ---------------------------------------------------------------------------
  // componentName and activity.

  /** `componentName` of a new entry: empty without an activity, else `package/activity`. */
  function ComponentName(packageName: string, activity: string): (r: string)
    ensures activity == [] <==> r == []
    ensures activity != [] ==>
              |r| == |packageName| + 1 + |activity| && r[|packageName|] == '/'
              && r[..|packageName|] == packageName && r[|packageName| + 1..] == activity
  {
    if activity == [] then [] else packageName + "/" + activity
  }

  /** The activity a parsed entry gets: the text after the first `/` of its componentName, or all of it. */
  function ActivityOf(componentName: string): (r: string)
    ensures '/' !in componentName ==> r == componentName
    ensures '/' in componentName ==>
      |r| < |componentName| && r == componentName[|componentName| - |r|..]
      && componentName[|componentName| - |r| - 1] == '/'
      && '/' !in componentName[..|componentName| - |r| - 1]
  {
    if Contains(componentName, "/") then
      var k := IndexOf(componentName, "/", 0);
      IndexOfFromFirst(componentName, "/", 0);
      assert componentName[k] == '/';
      forall j | 0 <= j < k ensures componentName[j] != '/' {
        assert componentName[j..][0] == componentName[j];
        assert !StartsAt(componentName, "/", j);
      }
      componentName[k + 1..]
    else
      assert '/' !in componentName by {
        forall j | 0 <= j < |componentName| ensures componentName[j] != '/' {
          assert componentName[j..][0] == componentName[j];
          assert !StartsAt(componentName, "/", j);
        }
      }
      componentName
  }

  /**
   * Splitting a componentName built for a new entry gives its activity back,
   * provided the package name holds no `/`.
   */
  lemma ComponentNameRoundTrip(packageName: string, activity: string)
    requires '/' !in packageName
    ensures ActivityOf(ComponentName(packageName, activity)) == activity
  {
    if activity != [] {
      var c := ComponentName(packageName, activity);
      assert c[|packageName|] == '/';
      var r := ActivityOf(c);
      var n := |c| - |r| - 1;
      assert c[..|packageName|] == packageName;
      assert n == |packageName|;
      assert c[|packageName| + 1..] == activity;
    }
  }

  /** With a `/` in the package name the split is taken at the wrong place. */
  lemma SlashInPackageLosesActivity()
    ensures ActivityOf(ComponentName("a/b", "c")) == "b/c"
  {
    var c := ComponentName("a/b", "c");
    assert c == "a/b/c";
    var r := ActivityOf(c);
    assert '/' !in c[..|c| - |r| - 1];
    assert c[1] == '/';
  }

  // ---------------------------------------------------------------------------
  // The parsing constructor.

  /** What `jsonObject.has("appPanelData")` / `getJSONObject("appPanelData")` find. */
  datatype Panel =
    | NoPanel
    | PanelObject(strings: map<string, string>)
    | PanelNotObject(message: Option<string>)

  /**
   * What `new JSONObject(text)` makes of a text, reduced to what the
   * constructor reads: the keys whose `optString` has a value, and the
   * panel; or the message of the JSONException it raises.
   */
  datatype ParsedObject =
    | Malformed(message: Option<string>)
    | Object(strings: map<string, string>, panel: Panel)

  /** `optString(key, fallback)`. */
  function OptString(strings: map<string, string>, key: string, fallback: string): (r: string)
    ensures key in strings ==> r == strings[key]
    ensures key !in strings ==> r == fallback
  {
    if key in strings then strings[key] else fallback
  }

  /**
   * `AppInfo(String originalJsonString)`, where `parsed` is what org.json
   * makes of the text.  On a JSONException the fields assigned before it keep
   * their values, packageName and componentName get the error markers, and
   * activity gets the exception message.
   */
  function FromJson(json: string, parsed: ParsedObject): (r: AppInfo)
    ensures r.originalJsonString == Some(json)
    ensures r.packageName.Some? && r.componentName.Some?
    ensures parsed.Malformed? ==>
      r == AppInfo(Some(ParseErrorPackage), None, None, parsed.message, Some(ParseErrorComponent), Some(json))
    ensures parsed.Object? ==>
      && r.appType == Some(OptString(parsed.strings, "type", DefaultType))
      && r.platformName == Some(OptString(parsed.strings, "platformName", DefaultPlatform))
    ensures parsed.Object? && parsed.panel.PanelNotObject? ==>
      && r.packageName == Some(ParseErrorPackage) && r.componentName == Some(ParseErrorComponent)
      && r.activity == parsed.panel.message
    ensures parsed.Object? && !parsed.panel.PanelNotObject? ==>
      && r.packageName == Some(OptString(parsed.strings, "packageName", DefaultPackage))
      && r.activity == Some(ActivityOf(r.componentName.value))
      && (parsed.panel.NoPanel? ==> r.componentName == Some(""))
      && (parsed.panel.PanelObject? ==> r.componentName == Some(OptString(parsed.panel.strings, "componentName", "")))
  {
    match parsed
    case Malformed(message) =>
      AppInfo(Some(ParseErrorPackage), None, None, message, Some(ParseErrorComponent), Some(json))
    case Object(strings, panel) =>
      var appType := OptString(strings, "type", DefaultType);
      var platformName := OptString(strings, "platformName", DefaultPlatform);
      match panel
      case PanelNotObject(message) =>
        AppInfo(Some(ParseErrorPackage), Some(appType), Some(platformName), message, Some(ParseErrorComponent), Some(json))
      case _ =>
        var componentName := if panel.PanelObject? then OptString(panel.strings, "componentName", "") else "";
        AppInfo(Some(OptString(strings, "packageName", DefaultPackage)), Some(appType), Some(platformName),
                Some(ActivityOf(componentName)), Some(componentName), Some(json))
  }

  // ---------------------------------------------------------------------------
  // The creating constructor.

  /**
   * `jsonObject.toString()` of `{packageName, type, platformName, appPanelData}`
   * built from these values (appPanelData holds componentName only when it is
   * non-empty).
   */
  type JsonRender = (string, string, string, string) -> string

  /**
   * `AppInfo(packageName, type, platformName, activity)` as written: line 60
   * calls `isEmpty()` on the parameter, so a null activity raises a
   * NullPointerException (None) although line 59 guards against it.
   */
  function NewAppInfoAsWritten(packageName: string, appType: string, platformName: string,
                               activity: Option<string>, render: JsonRender): (r: Option<AppInfo>)
    ensures r.None? <==> activity.None?
  {
    match activity
    case None => None
    case Some(a) =>
      var componentName := if a == [] then [] else packageName + "/" + a;
      Some(AppInfo(Some(packageName), Some(appType), Some(platformName), Some(a), Some(componentName),
                   Some(render(packageName, appType, platformName, componentName))))
  }

  /**
   * The creating constructor with the null guard taking effect: a null
   * activity counts as empty.
   */
  function NewAppInfo(packageName: string, appType: string, platformName: string,
                      activity: Option<string>, render: JsonRender): (r: AppInfo)
    ensures r.packageName == Some(packageName) && r.appType == Some(appType) && r.platformName == Some(platformName)
    ensures r.activity == Some(if activity.Some? then activity.value else "")
    ensures r.componentName == Some(ComponentName(packageName, r.activity.value))
    ensures r.originalJsonString == Some(render(packageName, appType, platformName, r.componentName.value))
  {
    var a := if activity.Some? then activity.value else "";
    var componentName := ComponentName(packageName, a);
    AppInfo(Some(packageName), Some(appType), Some(platformName), Some(a), Some(componentName),
            Some(render(packageName, appType, platformName, componentName)))
  }

  /** For every non-null activity the code as written and the guarded constructor agree. */
  lemma NewAppInfoAgrees(packageName: string, appType: string, platformName: string,
                         activity: Option<string>, render: JsonRender)
    ensures activity.Some? ==>
      NewAppInfoAsWritten(packageName, appType, platformName, activity, render)
        == Some(NewAppInfo(packageName, appType, platformName, activity, render))
    ensures activity.None? ==>
      && NewAppInfoAsWritten(packageName, appType, platformName, activity, render).None?
      && NewAppInfo(packageName, appType, platformName, activity, render).activity == Some("")
  {
  }

  // ---------------------------------------------------------------------------
  // Parcel.

  /** An android.os.Parcel reduced to a stream of nullable strings and a read position. */
  class Parcel {
    var slots: seq<Option<string>>
    var position: nat

    constructor ()
      ensures slots == [] && position == 0
    {
      slots := [];
      position := 0;
    }

    /** `writeString(s)`: appends at the end. */
    method WriteString(s: Option<string>)
      modifies this`slots
      ensures slots == old(slots) + [s]
    {
      slots := slots + [s];
    }

    /** `readString()`: the string at the position, which advances; null past the end. */
    method ReadString() returns (s: Option<string>)
      modifies this`position
      ensures s == SlotAt(slots, old(position))
      ensures position == if old(position) < |slots| then old(position) + 1 else old(position)
    {
      if position < |slots| {
        s := slots[position];
        position := position + 1;
      } else {
        s := None;
      }
    }

    /** `setDataPosition(p)`. */
    method SetDataPosition(p: nat)
      modifies this`position
      ensures position == p
    {
      position := p;
    }
  }

  function SlotAt(slots: seq<Option<string>>, i: nat): Option<string>
  {
    if i < |slots| then slots[i] else None
  }

  /** The six strings in the order `writeToParcel` writes them. */
  function Fields(app: AppInfo): (r: seq<Option<string>>)
    ensures |r| == 6
  {
    [app.packageName, app.appType, app.platformName, app.activity, app.componentName, app.originalJsonString]
  }

  /** The entry `AppInfo(Parcel)` reads starting at `from`. */
  function ReadFields(slots: seq<Option<string>>, from: nat): AppInfo
  {
    AppInfo(SlotAt(slots, from), SlotAt(slots, from + 1), SlotAt(slots, from + 2),
            SlotAt(slots, from + 3), SlotAt(slots, from + 4), SlotAt(slots, from + 5))
  }

  /** Reading at the place an entry was written, whatever surrounds it, gives the entry back. */
  lemma FieldsRoundTrip(app: AppInfo, before: seq<Option<string>>, after: seq<Option<string>>)
    ensures ReadFields(before + Fields(app) + after, |before|) == app
  {
    var s := before + Fields(app) + after;
    forall k | 0 <= k < 6 ensures SlotAt(s, |before| + k) == Fields(app)[k] {
      assert s[|before| + k] == Fields(app)[k];
    }
  }

  /** `writeToParcel`: the six fields, in order, after what the parcel holds. */
  method WriteToParcel(app: AppInfo, dest: Parcel)
    modifies dest`slots
    ensures dest.slots == old(dest.slots) + Fields(app)
  {
    dest.WriteString(app.packageName);
    dest.WriteString(app.appType);
    dest.WriteString(app.platformName);
    dest.WriteString(app.activity);
    dest.WriteString(app.componentName);
    dest.WriteString(app.originalJsonString);
  }

  /** `AppInfo(Parcel in)`: six reads, in the same order. */
  method FromParcel(source: Parcel) returns (app: AppInfo)
    modifies source`position
    ensures app == ReadFields(source.slots, old(source.position))
    ensures old(source.position) + 6 <= |source.slots| ==> source.position == old(source.position) + 6
  {
    var packageName := source.ReadString();
    var appType := source.ReadString();
    var platformName := source.ReadString();
    var activity := source.ReadString();
    var componentName := source.ReadString();
    var originalJsonString := source.ReadString();
    app := AppInfo(packageName, appType, platformName, activity, componentName, originalJsonString);
  }

  /**
   * An entry passed through a fresh parcel, as an Intent extra does:
   * `createFromParcel` after `writeToParcel` reproduces every field.
   */
  method ThroughParcel(app: AppInfo) returns (back: AppInfo)
    ensures back == app
  {
    var parcel := new Parcel();
    WriteToParcel(app, parcel);
    parcel.SetDataPosition(0);
    back := FromParcel(parcel);
    FieldsRoundTrip(app, [], []);
    assert [] + Fields(app) + [] == parcel.slots;
  }

  // ---------------------------------------------------------------------------
  // Display name.

  /** The packages with a fixed label. */
  function BuiltinLabel(packageName: string): Option<string>
  {
    if packageName == "com.oculus.explore" then Some("Oculus Explore")
    else if packageName == "com.oculus.store" then Some("Oculus Store")
    else if packageName == "messenger_system_app" then Some("Messenger")
    else if packageName == "share_system_app" then Some("Share")
    else if packageName == "com.oculus.browser" then Some("Oculus Browser")
    else None
  }

  /** Every piece of `s` between dots, in order (`split` before trailing empties are removed). */
  function DotPieces(s: string): (r: seq<string>)
    ensures |r| > 0
    decreases |s|
  {
    if s == [] then [[]]
    else
      var init := DotPieces(s[..|s| - 1]);
      if s[|s| - 1] == '.' then init + [[]]
      else init[..|init| - 1] + [init[|init| - 1] + [s[|s| - 1]]]
  }

  function DropTrailingEmpty(parts: seq<string>): (r: seq<string>)
    ensures r == [] || r[|r| - 1] != []
    ensures |r| <= |parts| && r == parts[..|r|]
    ensures parts == r + seq(|parts| - |r|, _ => "")
  {
    if parts != [] && parts[|parts| - 1] == [] then
      var r := DropTrailingEmpty(parts[..|parts| - 1]);
      assert parts == parts[..|parts| - 1] + [""];
      assert seq(|parts| - 1 - |r|, _ => "") + [""] == seq(|parts| - |r|, _ => "");
      r
    else
      assert seq(0, _ => "") == [];
      parts
  }

  /**
   * `s.split("\\.")`: the pieces between dots with trailing empty pieces
   * removed; a string without any dot gives itself as the one piece.
   */
  function SplitDots(s: string): seq<string>
  {
    if '.' !in s then [s] else DropTrailingEmpty(DotPieces(s))
  }

  function StripTrailingDots(s: string): (r: string)
    ensures r == [] || r[|r| - 1] != '.'
    ensures r <= s
    ensures forall k :: |r| <= k < |s| ==> s[k] == '.'
    decreases |s|
  {
    if s != [] && s[|s| - 1] == '.' then StripTrailingDots(s[..|s| - 1]) else s
  }

  /** `s.substring(0, 1).toUpperCase() + s.substring(1)` for a non-empty `s`. */
  function Capitalised(s: string): (r: string)
    requires s != []
    ensures |r| == |s| && r[0] == UpperAscii(s[0]) && r[1..] == s[1..]
  {
    [UpperAscii(s[0])] + s[1..]
  }

  /**
   * `getDisplayName()`: the fixed label of a built-in package, else the
   * PackageManager label (`appLabel`, None when the lookup throws), else the
   * capitalised last piece of the dotted name.  None stands for the
   * StringIndexOutOfBoundsException `substring(0, 1)` raises on an empty
   * last piece.
   */
  function DisplayName(app: AppInfo, appLabel: Option<string>): (r: Option<string>)
    requires app.packageName.Some?
    ensures BuiltinLabel(app.packageName.value).Some? ==> r == BuiltinLabel(app.packageName.value)
    ensures BuiltinLabel(app.packageName.value).None? && appLabel.Some? ==> r == appLabel
  {
    var packageName := app.packageName.value;
    if BuiltinLabel(packageName).Some? then BuiltinLabel(packageName)
    else if appLabel.Some? then appLabel
    else FallbackName(packageName)
  }

  /** The last branch of `getDisplayName`: the capitalised last piece of the dotted name. */
  function FallbackName(packageName: string): Option<string>
  {
    var parts := SplitDots(packageName);
    if |parts| > 0 then
      var appName := parts[|parts| - 1];
      if appName == [] then None else Some(Capitalised(appName))
    else Some(packageName)
  }

  lemma AfterLastWithout(s: string, c: char)
    requires c !in s
    ensures AfterLast(s, c) == s
  {
  }

  /** The last piece is the text after the last dot. */
  lemma {:induction false} LastPiece(s: string)
    ensures DotPieces(s)[|DotPieces(s)| - 1] == AfterLast(s, '.')
    decreases |s|
  {
    if s != [] {
      LastPiece(s[..|s| - 1]);
    }
  }

  lemma TrailingDotPiece(s: string)
    requires s != [] && s[|s| - 1] == '.'
    ensures DropTrailingEmpty(DotPieces(s)) == DropTrailingEmpty(DotPieces(s[..|s| - 1]))
  {
    var parts := DotPieces(s[..|s| - 1]);
    assert (parts + [[]])[..|parts|] == parts;
  }

  lemma LastPieceKept(s: string)
    requires s != [] && s[|s| - 1] != '.'
    ensures DropTrailingEmpty(DotPieces(s)) == DotPieces(s)
    ensures AfterLast(s, '.') != []
  {
    var init := DotPieces(s[..|s| - 1]);
    var parts := DotPieces(s);
    assert parts[|parts| - 1] == init[|init| - 1] + [s[|s| - 1]];
    assert parts[|parts| - 1] != [];
    LastPiece(s);
  }

  /**
   * The pieces `split` keeps are empty exactly when the name is only dots,
   * and otherwise end with the text after the last dot once the trailing
   * dots are gone.
   */
  predicate KeptPiecesEndWell(s: string)
  {
    var parts := DropTrailingEmpty(DotPieces(s));
    && (parts == [] <==> StripTrailingDots(s) == [])
    && (parts != [] ==> parts[|parts| - 1] == AfterLast(StripTrailingDots(s), '.') && parts[|parts| - 1] != [])
  }

  lemma {:induction false} DroppedPieces(s: string)
    ensures KeptPiecesEndWell(s)
    decreases |s|, 1
  {
    if s == [] {
      assert DotPieces(s) == [[]];
      assert DropTrailingEmpty([[]]) == DropTrailingEmpty([]);
    } else if s[|s| - 1] == '.' {
      DroppedPiecesAfterDot(s);
    } else {
      DroppedPiecesAfterOther(s);
    }
  }

  lemma {:induction false} DroppedPiecesAfterDot(s: string)
    requires s != [] && s[|s| - 1] == '.'
    ensures KeptPiecesEndWell(s)
    decreases |s|, 0
  {
    TrailingDotPiece(s);
    DroppedPieces(s[..|s| - 1]);
    assert StripTrailingDots(s) == StripTrailingDots(s[..|s| - 1]);
  }

  lemma DroppedPiecesAfterOther(s: string)
    requires s != [] && s[|s| - 1] != '.'
    ensures KeptPiecesEndWell(s)
  {
    LastPieceKept(s);
    LastPiece(s);
    assert StripTrailingDots(s) == s;
  }

  /**
   * The fallback of `getDisplayName` in closed form: it fails on the empty
   * name, keeps a name made only of dots, and otherwise capitalises the text
   * after the last dot once trailing dots are dropped.
   */
  lemma DisplayNameFallback(app: AppInfo)
    requires app.packageName.Some? && BuiltinLabel(app.packageName.value).None?
    ensures var p := app.packageName.value;
      DisplayName(app, None) ==
        if p == [] then None
        else if StripTrailingDots(p) == [] then Some(p)
        else Some(Capitalised(AfterLast(StripTrailingDots(p), '.')))
  {
    var p := app.packageName.value;
    assert DisplayName(app, None) == FallbackName(p);
    if '.' !in p {
      UndottedName(p);
    } else {
      DottedName(p);
    }
  }

  /** A name without a dot is its own only piece, and its own last piece. */
  lemma UndottedName(p: string)
    requires '.' !in p
    ensures SplitDots(p) == [p]
    ensures p != [] ==> StripTrailingDots(p) == p && AfterLast(p, '.') == p
  {
    AfterLastWithout(p, '.');
    if p != [] {
      assert StripTrailingDots(p) == p;
    }
  }

  /** The pieces `split` keeps of a dotted name, in terms of its text. */
  lemma DottedName(p: string)
    requires '.' in p
    ensures p != []
    ensures var parts := SplitDots(p);
      && (parts == [] <==> StripTrailingDots(p) == [])
      && (parts != [] ==> parts[|parts| - 1] == AfterLast(StripTrailingDots(p), '.') && parts[|parts| - 1] != [])
  {
    DroppedPieces(p);
  }
}
