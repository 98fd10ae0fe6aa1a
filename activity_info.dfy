/** A choosable activity of a package (ActivityInfo.java) and the text the picker shows for it. */
module ActivityInfoRecord {

  /** The datatype's constructor stores the three values as given. */
  datatype ActivityInfo = ActivityInfo(name: string, displayName: string, isMainActivity: bool)

  const MainSuffix := " (Main)"

  /**
   * `getDisplayText()`: the display name, marked ` (Main)` exactly when the
   * entry is the main activity.
   */
  function DisplayText(a: ActivityInfo): (r: string)
    ensures a.displayName <= r
    ensures a.isMainActivity <==> |r| > |a.displayName|
    ensures r[|a.displayName|..] == if a.isMainActivity then MainSuffix else ""
  {
    if a.isMainActivity then a.displayName + MainSuffix else a.displayName
  }

  /** Among entries with the same main flag, the display text determines the display name. */
  lemma DisplayTextDeterminesName(a: ActivityInfo, b: ActivityInfo)
    requires a.isMainActivity == b.isMainActivity && DisplayText(a) == DisplayText(b)
    ensures a.displayName == b.displayName
  {
    var t := DisplayText(a);
    assert a.displayName == t[..|a.displayName|] && b.displayName == t[..|b.displayName|];
  }

  /** The marker can be mistaken: a non-main entry whose name ends in ` (Main)` reads like a main one. */
  lemma MainMarkerAmbiguous()
    ensures DisplayText(ActivityInfo("x", "A (Main)", false)) == DisplayText(ActivityInfo("y", "A", true))
  {
  }
}
