/**
 * The pinned-apps editor: the list edits behind its buttons (reorder,
 * remove, add or edit through the activity picker), the state of the add
 * button, and the file written on save.
 */
module EditPinnedActivity {
  import opened Common
  import opened Text
  import opened ShellWords
  import opened RootShell
  import opened AppInfoRecord
  import opened MainActivity

  /** The dock holds at most five pinned apps. */
  const MaxApps := 5
  const MaxAppsText := "Max Apps Reached"

  /** The add button's text for a list of `size` apps. */
  function AddButtonText(size: nat): (r: string)
    ensures size >= MaxApps ==> r == MaxAppsText
    ensures size < MaxApps ==> r == "Add App (" + [DigitChar(size)] + "/5)"
  {
    if size >= MaxApps then MaxAppsText else "Add App (" + Decimal(size) + "/" + Decimal(MaxApps) + ")"
  }

  // ---------------------------------------------------------------------------
  // The list edits, as functions of the list.

  /** `Collections.swap(list, i, j)`. */
  function Swapped(s: seq<AppInfo>, i: nat, j: nat): (r: seq<AppInfo>)
    requires i < |s| && j < |s|
    ensures |r| == |s| && r[i] == s[j] && r[j] == s[i]
    ensures forall k :: 0 <= k < |s| && k != i && k != j ==> r[k] == s[k]
  {
    s[i := s[j]][j := s[i]]
  }

  /** A swap only moves apps: the list holds the same apps, as often as before. */
  lemma SwappedPermutes(s: seq<AppInfo>, i: nat, j: nat)
    requires i < |s| && j < |s|
    ensures multiset(Swapped(s, i, j)) == multiset(s)
  {
    var t := s[i := s[j]];
    assert multiset(t) == multiset(s) - multiset{s[i]} + multiset{s[j]};
    assert multiset(t[j := s[i]]) == multiset(t) - multiset{t[j]} + multiset{s[i]};
  }

  /** Swapping the same two positions again restores the list. */
  lemma SwappedTwice(s: seq<AppInfo>, i: nat, j: nat)
    requires i < |s| && j < |s|
    ensures Swapped(Swapped(s, i, j), i, j) == s
  {
  }

  /** `list.remove(position)`. */
  function Removed(s: seq<AppInfo>, p: nat): (r: seq<AppInfo>)
    requires p < |s|
    ensures |r| == |s| - 1
    ensures forall k :: 0 <= k < p ==> r[k] == s[k]
    ensures forall k :: p <= k < |r| ==> r[k] == s[k + 1]
  {
    s[..p] + s[p + 1..]
  }

  /** Removing drops exactly the app at the position: one occurrence of it, and nothing else. */
  lemma RemovedExactly(s: seq<AppInfo>, p: nat)
    requires p < |s|
    ensures multiset(Removed(s, p)) + multiset{s[p]} == multiset(s)
  {
    assert s == s[..p] + [s[p]] + s[p + 1..];
  }

  /** An edited entry: the picked package and activity, with `type` and `platformName` kept. */
  function Edited(existing: AppInfo, picked: AppInfo): (r: AppInfo)
    ensures r.appType == existing.appType && r.platformName == existing.platformName
    ensures r.packageName == picked.packageName && r.activity == picked.activity
    ensures r.componentName == picked.componentName && r.originalJsonString == picked.originalJsonString
  {
    existing.(packageName := picked.packageName, activity := picked.activity,
              componentName := picked.componentName, originalJsonString := picked.originalJsonString)
  }

  /** The entry the activity picker produces for a package and an activity name. */
  function PickedEntry(packageName: string, activityName: string, render: JsonRender): (r: AppInfo)
    ensures r.packageName == Some(packageName) && r.activity == Some(activityName)
    ensures r.appType == Some(DefaultType) && r.platformName == Some(DefaultPlatform)
    ensures r.componentName == Some(if activityName == "" then "" else packageName + "/" + activityName)
  {
    NewAppInfo(packageName, DefaultType, DefaultPlatform, Some(activityName), render)
  }

  /** The list after the picker's callback: add at the end while below the limit, or edit in place. */
  function AfterPick(s: seq<AppInfo>, picked: AppInfo, editPosition: int): (r: seq<AppInfo>)
    requires editPosition == -1 || 0 <= editPosition < |s|
    ensures |s| <= |r| <= |s| + 1
    ensures |s| <= MaxApps ==> |r| <= MaxApps
  {
    if editPosition == -1 then
      if |s| < MaxApps then s + [picked] else s
    else s[editPosition := Edited(s[editPosition], picked)]
  }

  /**
   * Adding never takes the list past five apps, and never drops or moves
   * one; editing changes only the entry at the position, and of it only the
   * package, the activity, the component name and the JSON text.
   */
  lemma AfterPickShape(s: seq<AppInfo>, picked: AppInfo, editPosition: int)
    requires editPosition == -1 || 0 <= editPosition < |s|
    ensures var r := AfterPick(s, picked, editPosition);
            && (editPosition == -1 ==>
                  r[..|s|] == s
                  && (|s| < MaxApps ==> r == s + [picked])
                  && (|s| <= MaxApps ==> |r| <= MaxApps)
                  && (|s| >= MaxApps ==> r == s))
            && (editPosition != -1 ==>
                  |r| == |s|
                  && (forall k :: 0 <= k < |s| && k != editPosition ==> r[k] == s[k])
                  && r[editPosition].appType == s[editPosition].appType
                  && r[editPosition].platformName == s[editPosition].platformName
                  && r[editPosition].packageName == picked.packageName
                  && r[editPosition].activity == picked.activity)
  {
  }

  // ---------------------------------------------------------------------------
  // The editor screen.

  class PinnedEditor {
    var appList: seq<AppInfo>
    /** Whether the save button is enabled. */
    var saveEnabled: bool
    /** Whether the add button is enabled, and its text. */
    var addEnabled: bool
    var addText: string

    /** `onCreate` with the list handed over by the main screen; the save button starts disabled. */
    constructor (apps: seq<AppInfo>)
      ensures appList == apps && !saveEnabled
      ensures addEnabled == (|apps| < MaxApps) && addText == AddButtonText(|apps|)
    {
      appList := apps;
      saveEnabled := false;
      addEnabled := |apps| < MaxApps;
      addText := AddButtonText(|apps|);
    }

    /** `updateAddButtonState`: adding is possible exactly while below the limit. */
    method UpdateAddButtonState()
      modifies this`addEnabled, this`addText
      ensures addEnabled == (|appList| < MaxApps)
      ensures addText == AddButtonText(|appList|)
    {
      addEnabled := |appList| < MaxApps;
      addText := AddButtonText(|appList|);
    }

    /** `onAppReorder`: swap the two positions and enable saving, unless they are the same. */
    method OnAppReorder(from: int, to: int)
      requires 0 <= from < |appList| && 0 <= to < |appList|
      modifies this`appList, this`saveEnabled
      ensures from != to ==> appList == Swapped(old(appList), from, to) && saveEnabled
      ensures from == to ==> appList == old(appList) && saveEnabled == old(saveEnabled)
    {
      if from != to {
        appList := appList[from := appList[to]][to := appList[from]];
        saveEnabled := true;
      }
    }

    /** `onAppRemove`: remove the app at the position, refresh the add button, enable saving. */
    method OnAppRemove(position: int)
      requires 0 <= position < |appList|
      modifies this
      ensures appList == Removed(old(appList), position)
      ensures addEnabled == (|appList| < MaxApps) && addText == AddButtonText(|appList|)
      ensures saveEnabled
    {
      appList := appList[..position] + appList[position + 1..];
      UpdateAddButtonState();
      saveEnabled := true;
    }

    /**
     * The callback of the activity picker: with edit position -1 the picked
     * entry is added while the list is below the limit, otherwise the entry at
     * the position takes the picked package and activity.  Saving is enabled
     * in every case.
     */
    method OnActivitySelected(packageName: string, activityName: string, editPosition: int, render: JsonRender)
      requires editPosition == -1 || 0 <= editPosition < |appList|
      modifies this
      ensures appList == AfterPick(old(appList), PickedEntry(packageName, activityName, render), editPosition)
      ensures editPosition == -1 && old(|appList|) < MaxApps ==>
                addEnabled == (|appList| < MaxApps) && addText == AddButtonText(|appList|)
      ensures !(editPosition == -1 && old(|appList|) < MaxApps) ==>
                addEnabled == old(addEnabled) && addText == old(addText)
      ensures saveEnabled
    {
      var newAppInfo := NewAppInfo(packageName, DefaultType, DefaultPlatform, Some(activityName), render);
      if editPosition == -1 {
        if |appList| < MaxApps {
          appList := appList + [newAppInfo];
          UpdateAddButtonState();
        }
      } else {
        var existingApp := appList[editPosition];
        existingApp := existingApp.(packageName := newAppInfo.packageName);
        existingApp := existingApp.(activity := newAppInfo.activity);
        existingApp := existingApp.(componentName := newAppInfo.componentName);
        existingApp := existingApp.(originalJsonString := newAppInfo.originalJsonString);
        appList := appList[editPosition := existingApp];
      }
      saveEnabled := true;
    }
  }

  // ---------------------------------------------------------------------------
  // Saving.

  /** `objects` joined by `sep`. */
  function Join(objects: seq<string>, sep: string): string
    decreases |objects|
  {
    if objects == [] then ""
    else if |objects| == 1 then objects[0]
    else objects[0] + sep + Join(objects[1..], sep)
  }

  /**
   * The pinned-apps array as the editor writes it: `[`, the objects joined by
   * `, ` except that the last two are joined by ` ,`, and `]`.
   */
  function PinnedArray(objects: seq<string>): (r: string)
    ensures |r| >= 2 && r[0] == '[' && r[|r| - 1] == ']'
  {
    if |objects| < 2 then "[" + Join(objects, ", ") + "]"
    else "[" + (Join(objects[..|objects| - 1], ", ") + " ," + objects[|objects| - 1]) + "]"
  }

  /** What follows item `i` of `n`: nothing after the last, ` ,` before the last, `, ` elsewhere. */
  function Separator(i: nat, n: nat): string
  {
    if i + 1 < n then (if i + 2 == n then " ," else ", ") else ""
  }

  /** The first `k` items of `n`, each followed by its separator. */
  function Items(objects: seq<string>, k: nat): string
    requires k <= |objects|
    decreases k
  {
    if k == 0 then "" else Items(objects, k - 1) + objects[k - 1] + Separator(k - 1, |objects|)
  }

  /** The separators of a list are those of its tail, one place later. */
  lemma {:induction false} ItemsShift(objects: seq<string>, k: nat)
    requires 1 <= k <= |objects|
    ensures Items(objects, k) == objects[0] + Separator(0, |objects|) + Items(objects[1..], k - 1)
    decreases k
  {
    if k > 1 {
      ItemsShift(objects, k - 1);
      assert Separator(k - 1, |objects|) == Separator(k - 2, |objects[1..]|);
      assert objects[1..][k - 2] == objects[k - 1];
    }
  }

  /** Two lists that agree on their first `k` items and their length render those items alike. */
  lemma {:induction false} ItemsPrefix(a: seq<string>, b: seq<string>, k: nat)
    requires k <= |a| && k <= |b| && |a| == |b| && a[..k] == b[..k]
    ensures Items(a, k) == Items(b, k)
    decreases k
  {
    if k > 0 {
      assert a[..k - 1] == a[..k][..k - 1] && b[..k - 1] == b[..k][..k - 1];
      assert a[k - 1] == a[..k][k - 1] && b[k - 1] == b[..k][k - 1];
      ItemsPrefix(a, b, k - 1);
    }
  }

  /** Item by item with separators gives the declarative array body. */
  lemma {:induction false} ItemsJoin(objects: seq<string>)
    ensures |objects| < 2 ==> Items(objects, |objects|) == Join(objects, ", ")
    ensures |objects| >= 2 ==>
              Items(objects, |objects|) == Join(objects[..|objects| - 1], ", ") + " ," + objects[|objects| - 1]
    decreases |objects|
  {
    var n := |objects|;
    if n == 1 {
      assert Items(objects, 1) == "" + objects[0] + "";
    } else if n == 2 {
      ItemsShift(objects, 2);
      assert Items(objects[1..], 1) == "" + objects[1] + "";
      assert objects[..1] == [objects[0]];
    } else if n > 2 {
      ItemsShift(objects, n);
      ItemsJoin(objects[1..]);
      var init := objects[..n - 1];
      assert init[1..] == objects[1..][..n - 2];
      assert init[0] == objects[0];
      assert objects[1..][n - 2] == objects[n - 1];
    }
  }

  /**
   * The separator loop of `saveChanges`: each object followed by its
   * separator, between `[` and `]`.
   */
  method BuildPinnedArray(objects: seq<string>) returns (json: string)
    ensures json == PinnedArray(objects)
  {
    json := "[";
    var i := 0;
    while i < |objects|
      invariant 0 <= i <= |objects|
      invariant json == "[" + Items(objects, i)
    {
      json := json + objects[i];
      if i < |objects| - 1 {
        if i == |objects| - 2 {
          json := json + " ,";
        } else {
          json := json + ", ";
        }
      }
      ItemsStep(objects, i);
      i := i + 1;
    }
    json := json + "]";
    ItemsArray(objects);
  }

  lemma ItemsStep(objects: seq<string>, i: nat)
    requires i < |objects|
    ensures "[" + Items(objects, i + 1) == "[" + Items(objects, i) + objects[i] + Separator(i, |objects|)
  {
  }

  /** The items of the whole list between brackets are the declarative array. */
  lemma ItemsArray(objects: seq<string>)
    ensures "[" + Items(objects, |objects|) + "]" == PinnedArray(objects)
  {
    ItemsJoin(objects);
    if |objects| >= 2 {
      ItemsArrayLong(objects);
    }
  }

  lemma ItemsArrayLong(objects: seq<string>)
    requires |objects| >= 2
    requires Items(objects, |objects|) == Join(objects[..|objects| - 1], ", ") + " ," + objects[|objects| - 1]
    ensures "[" + Items(objects, |objects|) + "]" == PinnedArray(objects)
  {
  }

  /** No items give `[]`, one item stands alone, and two are joined by ` ,`. */
  lemma PinnedArraySmall(a: string, b: string)
    ensures PinnedArray([]) == "[]"
    ensures PinnedArray([a]) == "[" + a + "]"
    ensures PinnedArray([a, b]) == "[" + a + " ," + b + "]"
  {
    assert [a, b][..1] == [a];
  }

  /** `\/` becomes `/` (the JSON escape for a slash is undone), then `"` becomes `&quot;`. */
  function EncodeForXml(json: string): (r: string)
    ensures '"' !in r
  {
    ReplaceRemovesChar(Replace(json, "\\/", "/"), '"', Quot);
    Replace(Replace(json, "\\/", "/"), "\"", Quot)
  }

  /** The file `saveChanges` writes for the array text `json`. */
  function SavedXml(json: string): string
  {
    PreferencesXml(EncodeForXml(json))
  }

  /**
   * What the editor saves, the main screen loads back: the pinned-apps text
   * of the saved file decodes to the array written, provided the array has
   * no `&`, no escaped slash, and no `</string>` once encoded.
   */
  lemma SaveRoundTrip(json: string)
    requires '&' !in json && !Contains(json, "\\/") && !Contains(EncodeForXml(json), StringClose)
    ensures ExtractPinned(SavedXml(json)) == Some(EncodeForXml(json))
    ensures ExtractPinnedAsWritten(SavedXml(json)) == Some(EncodeForXml(json))
    ensures DecodeEntities(EncodeForXml(json)) == json
  {
    ReplaceAbsent(json, "\\/", "/");
    ExtractTemplate(EncodeForXml(json));
    QuoteEntityRoundTrip(json);
  }

  /** The JSON object text of each app, or None when some app's JSON cannot be rebuilt. */
  function ObjectTexts(apps: seq<AppInfo>, toJson: AppInfo -> Option<string>): Option<seq<string>>
    decreases |apps|
  {
    if apps == [] then Some([])
    else
      match ObjectTexts(apps[..|apps| - 1], toJson)
      case None => None
      case Some(init) =>
        match toJson(apps[|apps| - 1])
        case None => None
        case Some(last) => Some(init + [last])
  }

  lemma {:induction false} ObjectTextsFail(apps: seq<AppInfo>, toJson: AppInfo -> Option<string>, k: nat)
    requires k < |apps| && toJson(apps[k]).None?
    ensures ObjectTexts(apps, toJson).None?
    decreases |apps|
  {
    if k < |apps| - 1 {
      assert apps[..|apps| - 1][k] == apps[k];
      ObjectTextsFail(apps[..|apps| - 1], toJson, k);
    }
  }

  /**
   * `saveChanges`: rebuild each app's JSON object in list order, build the
   * array text, encode it, and write the template with it to the preferences
   * file.  On success the save button is disabled; when an object cannot be
   * rebuilt nothing is written.
   */
  method SaveChanges(editor: PinnedEditor, shell: Shell, toJson: AppInfo -> Option<string>) returns (saved: bool)
    modifies editor`saveEnabled, shell`lastCommandOutput, shell.rootProcess
    ensures ObjectTexts(old(editor.appList), toJson).None? ==>
              && !saved && unchanged(shell) && editor.saveEnabled == old(editor.saveEnabled)
              && (old(shell.rootProcess) != null ==> unchanged(old(shell.rootProcess)))
    ensures ObjectTexts(old(editor.appList), toJson).Some? ==>
              var xml := SavedXml(PinnedArray(ObjectTexts(old(editor.appList), toJson).value));
              && shell.BatchRan(WriteCommands(TargetFile, xml), shell.lastCommandOutput)
              && saved == !MentionsFailure(shell.lastCommandOutput)
              && editor.saveEnabled == (old(editor.saveEnabled) && !saved)
  {
    var apps := editor.appList;
    var objects: seq<string> := [];
    var i := 0;
    while i < |apps|
      invariant 0 <= i <= |apps|
      invariant ObjectTexts(apps[..i], toJson) == Some(objects)
    {
      var text := toJson(apps[i]);
      if text.None? {
        ObjectTextsFail(apps, toJson, i);
        return false;
      }
      objects := objects + [text.value];
      assert apps[..i + 1][..i] == apps[..i];
      i := i + 1;
    }
    assert apps[..i] == apps;
    var finalJson := BuildPinnedArray(objects);
    var newXmlContent := SavedXml(finalJson);
    saved := shell.WriteFileContent(TargetFile, newXmlContent);
    if saved {
      editor.saveEnabled := false;
    }
  }
}
