/**
 * The activity list the picker offers for one package
 * (ActivitySelectionDialog.getAppActivities).  The PackageManager answers
 * are inputs: the class of the launch intent, and the package listing.
 */
module ActivitySelection {
  import opened Common
  import opened Text
  import opened ActivityInfoRecord

  /** One `android.content.pm.ActivityInfo` of the listing. */
  datatype DeclaredActivity = DeclaredActivity(name: string, exported: bool)

  /**
   * `getPackageInfo(package, GET_ACTIVITIES)`: NameNotFoundException, or the
   * package's activities array (null when it has none).
   */
  datatype PackageListing = NameNotFound | Listed(activities: Option<seq<DeclaredActivity>>)

  const MainDisplay := "Main Activity"
  const DefaultDisplay := "Default Activity"

  /** The entry offered when nothing better is known: launch whatever the package's default is. */
  const DefaultEntry := ActivityInfo("", DefaultDisplay, true)

  /** The entry for the class of the launch intent, when there is one. */
  function MainEntries(launchClass: Option<string>): (r: seq<ActivityInfo>)
    ensures |r| <= 1
    ensures r != [] <==> launchClass.Some?
  {
    if launchClass.Some? then [ActivityInfo(launchClass.value, MainDisplay, true)] else []
  }

  /** Whether a declared activity is offered besides the main entry: exported and not the launch class. */
  predicate Offered(d: DeclaredActivity, launchClass: Option<string>)
  {
    d.exported && !(launchClass.Some? && d.name == launchClass.value)
  }

  /** The entry for an offered activity: its name, shown by the text after its last dot. */
  function OfferedEntry(d: DeclaredActivity): ActivityInfo
  {
    ActivityInfo(d.name, AfterLast(d.name, '.'), false)
  }

  /** What one listed activity adds: its entry when it is offered, else nothing. */
  function Additions(d: DeclaredActivity, launchClass: Option<string>): seq<ActivityInfo>
  {
    if Offered(d, launchClass) then [OfferedEntry(d)] else []
  }

  /** The entries the listing loop adds, in listing order. */
  function OfferedEntries(declared: seq<DeclaredActivity>, launchClass: Option<string>): seq<ActivityInfo>
    decreases |declared|
  {
    if declared == [] then []
    else
      Additions(declared[0], launchClass) + OfferedEntries(declared[1..], launchClass)
  }

  /** What the listing step finds: the main entry, then the offered activities or the default entry. */
  function Found(launchClass: Option<string>, listing: PackageListing): seq<ActivityInfo>
  {
    match listing
    case NameNotFound => MainEntries(launchClass) + [DefaultEntry]
    case Listed(None) => MainEntries(launchClass)
    case Listed(Some(declared)) => MainEntries(launchClass) + OfferedEntries(declared, launchClass)
  }

  /**
   * What `getAppActivities` returns: never empty, and led by the main entry
   * whenever the package has a launch intent.
   */
  function Activities(launchClass: Option<string>, listing: PackageListing): (r: seq<ActivityInfo>)
    ensures r != []
    ensures launchClass.Some? ==> r[0] == ActivityInfo(launchClass.value, MainDisplay, true)
  {
    var found := Found(launchClass, listing);
    if found == [] then [DefaultEntry] else found
  }

  /** Offering distributes over a split listing, so listing order is kept. */
  lemma {:induction false} OfferedEntriesConcat(a: seq<DeclaredActivity>, b: seq<DeclaredActivity>, launchClass: Option<string>)
    ensures OfferedEntries(a + b, launchClass) == OfferedEntries(a, launchClass) + OfferedEntries(b, launchClass)
    decreases |a|
  {
    if a == [] {
      assert a + b == b;
    } else {
      OfferedEntriesConcat(a[1..], b, launchClass);
      OfferedConcatStep(a, b, launchClass);
    }
  }

  /** The inductive step of `OfferedEntriesConcat`: one more activity in front of the first part. */
  lemma OfferedConcatStep(a: seq<DeclaredActivity>, b: seq<DeclaredActivity>, launchClass: Option<string>)
    requires a != []
    requires OfferedEntries(a[1..] + b, launchClass) == OfferedEntries(a[1..], launchClass) + OfferedEntries(b, launchClass)
    ensures OfferedEntries(a + b, launchClass) == OfferedEntries(a, launchClass) + OfferedEntries(b, launchClass)
  {
    OfferedCons(a, b, launchClass);
    OfferedFront(a, OfferedEntries(b, launchClass), launchClass);
  }

  /** The first activity's additions, then the rest of the listing's, then more, are the listing's, then more. */
  lemma OfferedFront(a: seq<DeclaredActivity>, more: seq<ActivityInfo>, launchClass: Option<string>)
    requires a != []
    ensures Additions(a[0], launchClass) + (OfferedEntries(a[1..], launchClass) + more)
         == OfferedEntries(a, launchClass) + more
  {
    Regrouped(Additions(a[0], launchClass), OfferedEntries(a[1..], launchClass), more);
  }

  /** The first activity of a non-empty listing is looked at first. */
  lemma OfferedCons(a: seq<DeclaredActivity>, b: seq<DeclaredActivity>, launchClass: Option<string>)
    requires a != []
    ensures OfferedEntries(a + b, launchClass)
         == Additions(a[0], launchClass) + OfferedEntries(a[1..] + b, launchClass)
  {
    assert (a + b)[0] == a[0] && (a + b)[1..] == a[1..] + b;
  }

  /**
   * Every offered entry comes from an exported, non-launch activity of the
   * listing, and every such activity is offered.
   */
  lemma OfferedEntriesExactly(declared: seq<DeclaredActivity>, launchClass: Option<string>)
    ensures forall e :: e in OfferedEntries(declared, launchClass) ==>
              exists d :: d in declared && Offered(d, launchClass) && e == OfferedEntry(d)
    ensures forall d :: d in declared && Offered(d, launchClass) ==>
              OfferedEntry(d) in OfferedEntries(declared, launchClass)
  {
    OfferedEntriesSound(declared, launchClass);
    OfferedEntriesComplete(declared, launchClass);
  }

  /** Every offered entry comes from an exported, non-launch activity of the listing. */
  lemma {:induction false} OfferedEntriesSound(declared: seq<DeclaredActivity>, launchClass: Option<string>)
    ensures forall e :: e in OfferedEntries(declared, launchClass) ==>
              exists d :: d in declared && Offered(d, launchClass) && e == OfferedEntry(d)
    decreases |declared|
  {
    if declared != [] {
      OfferedEntriesSound(declared[1..], launchClass);
      var head := Additions(declared[0], launchClass);
      var rest := OfferedEntries(declared[1..], launchClass);
      assert OfferedEntries(declared, launchClass) == head + rest;
      forall e | e in head + rest
        ensures exists d :: d in declared && Offered(d, launchClass) && e == OfferedEntry(d)
      {
        if e in head {
          assert e == OfferedEntry(declared[0]) && Offered(declared[0], launchClass);
        } else {
          assert e in rest;
          var d :| d in declared[1..] && Offered(d, launchClass) && e == OfferedEntry(d);
          assert d in declared;
        }
      }
    }
  }

  /** Every exported, non-launch activity of the listing is offered. */
  lemma {:induction false} OfferedEntriesComplete(declared: seq<DeclaredActivity>, launchClass: Option<string>)
    ensures forall d :: d in declared && Offered(d, launchClass) ==>
              OfferedEntry(d) in OfferedEntries(declared, launchClass)
    decreases |declared|
  {
    if declared != [] {
      OfferedEntriesComplete(declared[1..], launchClass);
      var head := Additions(declared[0], launchClass);
      var rest := OfferedEntries(declared[1..], launchClass);
      assert OfferedEntries(declared, launchClass) == head + rest;
      forall d | d in declared && Offered(d, launchClass)
        ensures OfferedEntry(d) in head + rest
      {
        if d == declared[0] {
          assert OfferedEntry(d) in head;
        } else {
          assert d in declared[1..];
          assert OfferedEntry(d) in rest;
        }
      }
    }
  }

  /** No offered entry is a main entry, and each one shows the text after the last dot of its name. */
  lemma {:induction false} OfferedEntriesShape(declared: seq<DeclaredActivity>, launchClass: Option<string>)
    ensures forall e :: e in OfferedEntries(declared, launchClass) ==>
              !e.isMainActivity && e.displayName == AfterLast(e.name, '.')
              && (launchClass.Some? ==> e.name != launchClass.value)
  {
    OfferedEntriesExactly(declared, launchClass);
  }

  /**
   * The list is never empty; with a launch intent it starts with the main
   * entry; without one, and with nothing else found (a missing package, or
   * no activity list), it is the default entry alone.
   */
  lemma ActivitiesShape(launchClass: Option<string>, listing: PackageListing)
    ensures var r := Activities(launchClass, listing);
      && r != []
      && (launchClass.Some? ==> r[0] == ActivityInfo(launchClass.value, MainDisplay, true))
      && (launchClass.None? && listing.NameNotFound? ==> r == [DefaultEntry])
      && (listing == Listed(None) ==> r == if launchClass.Some? then MainEntries(launchClass) else [DefaultEntry])
      && (listing.Listed? && listing.activities.Some? ==>
            r[|MainEntries(launchClass)|..] == OfferedEntries(listing.activities.value, launchClass)
            || (r == [DefaultEntry] && launchClass.None? && OfferedEntries(listing.activities.value, launchClass) == []))
  {
  }

  /** On NameNotFoundException the default entry follows the main entry already added. */
  lemma NameNotFoundKeepsMain(launchClass: string)
    ensures Activities(Some(launchClass), NameNotFound)
         == [ActivityInfo(launchClass, MainDisplay, true), DefaultEntry]
  {
  }

  lemma OfferedSingle(d: DeclaredActivity, launchClass: Option<string>)
    ensures OfferedEntries([d], launchClass) == if Offered(d, launchClass) then [OfferedEntry(d)] else []
  {
    assert [d][1..] == [];
  }

  /** One pass of the listing loop: an exported activity other than the launch class is added. */
  method AppendIfOffered(activities: seq<ActivityInfo>, d: DeclaredActivity, launchClass: Option<string>)
    returns (r: seq<ActivityInfo>)
    ensures r == activities + OfferedEntries([d], launchClass)
  {
    r := activities;
    if d.exported {
      var displayName := AfterLast(d.name, '.');
      var isMain := launchClass.Some? && d.name == launchClass.value;
      if !isMain {
        r := r + [ActivityInfo(d.name, displayName, false)];
      }
    }
    OfferedSingle(d, launchClass);
    assert r == activities + OfferedEntries([d], launchClass);
  }

  /** The listing loop of `getAppActivities`: appends an entry for each offered activity, in order. */
  method AppendOffered(start: seq<ActivityInfo>, list: seq<DeclaredActivity>, launchClass: Option<string>)
    returns (activities: seq<ActivityInfo>)
    ensures activities == start + OfferedEntries(list, launchClass)
  {
    activities := start;
    var i := 0;
    assert list[..0] == [] && start + [] == start;
    while i < |list|
      invariant 0 <= i <= |list|
      invariant activities == start + OfferedEntries(list[..i], launchClass)
    {
      activities := AppendIfOffered(activities, list[i], launchClass);
      OfferedStep(start, list, i, launchClass);
      i := i + 1;
    }
    assert list[..i] == list;
  }

  /** One more listed activity extends what the loop has appended so far. */
  lemma OfferedStep(start: seq<ActivityInfo>, list: seq<DeclaredActivity>, i: nat, launchClass: Option<string>)
    requires i < |list|
    ensures start + OfferedEntries(list[..i], launchClass) + OfferedEntries([list[i]], launchClass)
         == start + OfferedEntries(list[..i + 1], launchClass)
  {
    assert list[..i + 1] == list[..i] + [list[i]];
    OfferedAppend(start, list[..i], [list[i]], launchClass);
  }

  /** Appending the entries of one listing and then of another appends those of the two together. */
  lemma OfferedAppend(start: seq<ActivityInfo>, a: seq<DeclaredActivity>, b: seq<DeclaredActivity>, launchClass: Option<string>)
    ensures start + OfferedEntries(a, launchClass) + OfferedEntries(b, launchClass)
         == start + OfferedEntries(a + b, launchClass)
  {
    OfferedEntriesConcat(a, b, launchClass);
    Regrouped(start, OfferedEntries(a, launchClass), OfferedEntries(b, launchClass));
  }

  /** Appending twice is appending the two together; proved apart from the listing's definitions. */
  lemma Regrouped(start: seq<ActivityInfo>, before: seq<ActivityInfo>, added: seq<ActivityInfo>)
    ensures start + before + added == start + (before + added)
  {
  }

  /**
   * `getAppActivities`: the main entry, then each exported activity other
   * than the launch class in listing order, or the default entry on
   * NameNotFoundException; the default entry alone when nothing was added.
   */
  method GetAppActivities(launchClass: Option<string>, listing: PackageListing) returns (activities: seq<ActivityInfo>)
    ensures activities == Activities(launchClass, listing)
  {
    activities := [];
    if launchClass.Some? {
      activities := activities + [ActivityInfo(launchClass.value, MainDisplay, true)];
    }
    assert activities == MainEntries(launchClass);
    match listing
    case NameNotFound =>
      activities := activities + [DefaultEntry];
    case Listed(declared) =>
      if declared.Some? {
        activities := AppendOffered(activities, declared.value, launchClass);
      }
    assert activities == Found(launchClass, listing);
    if activities == [] {
      activities := activities + [DefaultEntry];
    }
  }
}
