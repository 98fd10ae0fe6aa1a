# DockEditor core, modelled in Dafny

DockEditor is an Android app that edits the pinned-apps dock of a VR
headset's system shell. The dock lives in a shared-preferences XML file that
only root can read or write. This project models two parts of the app and
proves what they promise.

**The privileged shell session (`RootShell`).** A class with a nullable
`rootProcess` and a `lastCommandOutput` string, as in the Java static
fields.
- `InitRootShell` and `Shutdown` form the session lifecycle.
- `ExecuteCommands` writes each command, then the
  `echo --END_OF_COMMAND--` sentinel. It reads standard output up to the
  first line that equals the sentinel, then drains the ready standard-error
  lines with a `STDERR: ` prefix.
- The file helpers `GetFileContent`, `WriteFileContent` and `CopyFile` sit
  on top of it.

The process on the other end is an abstract peer, the `SuProcess` class. It
holds a scripted queue of standard-output lines, a queue of standard-error
lines, a log of the bytes written, and an optional write failure. The
single-quote escaping of `writeFileContent` is proved correct against POSIX
quote removal (sections 2.2.2 and 2.2.3 of the Shell Command Language,
IEEE Std 1003.1), modelled in `ShellWords`. It holds on the bytes the shell
receives only for text below U+0100, because `writeBytes` keeps the low
byte of each character.

**The pinned-dock data pipeline.**
- `MainActivity`:
  - extracts the pinned JSON from the preferences XML;
  - decodes the `&quot;` and `&amp;` entities (section 4.6 of XML 1.0);
  - turns each array element into an `AppInfo`;
  - defines the default preferences, the backup file names and the SELinux
    label.
- `EditPinnedActivity`: the in-place list edits of the editor screen (swap,
  remove, bounded add, edit), the add button's state, and the hand-built
  JSON array with its odd separator. `saveChanges` encodes that array,
  fills the XML template and writes it through the root shell.
- `AppInfoRecord`: both constructors' field derivations, the Parcel
  write/read pair and `getDisplayName`.
- `ActivitySelection`: the activity list offered for one package, built
  over abstract PackageManager results.
- `ActivityInfoRecord`: `getDisplayText`.

`Text` holds the `java.lang.String` operations the code relies on:
- `indexOf`, which gives -1 when there is no match;
- `replace`, which works left to right without overlaps;
- `trim`, which drops every character up to `' '`;
- `equalsIgnoreCase` and `lastIndexOf`;
- decimal formatting.

JSON parsing and serialisation are parameters of the model:
- `ArrayParse` stands for `new JSONArray(text)`;
- `JsonRender` stands for the 4-argument constructor's `JSONObject.toString()`;
- `toJson` stands for the per-entry object rebuild in `saveChanges`.

## Model

| member | source | states |
|---|---|---|
| ActivityInfoRecord.DisplayText | app/src/main/java/com/lumi/dockeditor/ActivityInfo.java:14-19 | The text starts with `displayName`. It is longer exactly when the entry is the main activity, and what follows the name is `" (Main)"` or nothing. |
| ActivityInfoRecord.DisplayTextDeterminesName | app/src/main/java/com/lumi/dockeditor/ActivityInfo.java:14-19 | Two entries with the same main flag and the same display text have the same display name. |
| ActivityInfoRecord.MainMarkerAmbiguous | app/src/main/java/com/lumi/dockeditor/ActivityInfo.java:15-18 | A non-main entry named `A (Main)` shows the same text as a main entry named `A`. |
| ActivitySelection.MainEntries | app/src/main/java/com/lumi/dockeditor/ActivitySelectionDialog.java:55-63 | At most one main entry, present exactly when a launch intent exists. |
| ActivitySelection.OfferedEntriesExactly | app/src/main/java/com/lumi/dockeditor/ActivitySelectionDialog.java:68-85 | Every listed entry comes from an exported activity that is not the launch class, and every such activity is listed. |
| ActivitySelection.OfferedEntriesShape | app/src/main/java/com/lumi/dockeditor/ActivitySelectionDialog.java:70-83 | Listed entries are non-main. Each one's display name is the text after the last `.` of its name, and its name differs from the launch class. |
| ActivitySelection.OfferedEntriesConcat | app/src/main/java/com/lumi/dockeditor/ActivitySelectionDialog.java:68-85 | The loop's additions for a concatenated listing are the additions for each part, in listing order. |
| ActivitySelection.Activities | app/src/main/java/com/lumi/dockeditor/ActivitySelectionDialog.java:49-107 | The offered list is never empty, and with a launch intent its first entry is the main entry for the launch class, shown as `Main Activity`. |
| ActivitySelection.ActivitiesShape | app/src/main/java/com/lumi/dockeditor/ActivitySelectionDialog.java:49-107 | The result is never empty, and a launch intent puts `Main Activity` first. If the package is missing and there is no intent, the result is the single default entry. Otherwise the non-main entries follow the main entry in listing order, or the list falls back to the default entry. |
| ActivitySelection.NameNotFoundKeepsMain | app/src/main/java/com/lumi/dockeditor/ActivitySelectionDialog.java:88-95 | A missing package appends the default entry after the main entry already added. |
| ActivitySelection.OfferedSingle | app/src/main/java/com/lumi/dockeditor/ActivitySelectionDialog.java:69-83 | One declared activity adds one entry exactly when it is exported and is not the launch class. |
| ActivitySelection.AppendIfOffered | app/src/main/java/com/lumi/dockeditor/ActivitySelectionDialog.java:69-84 | One loop step appends exactly the additions that one activity makes. |
| ActivitySelection.AppendOffered | app/src/main/java/com/lumi/dockeditor/ActivitySelectionDialog.java:67-86 | The loop appends the listing's additions to what is already there. |
| ActivitySelection.GetAppActivities | app/src/main/java/com/lumi/dockeditor/ActivitySelectionDialog.java:49-107 | The method builds exactly the list the specification function `Activities` describes. |
| AppInfoRecord.ComponentName | app/src/main/java/com/lumi/dockeditor/AppInfo.java:60 | The name is empty exactly when the activity is empty. Otherwise it starts with the whole package, has `/` right after it, and ends with the whole activity. |
| AppInfoRecord.ActivityOf | app/src/main/java/com/lumi/dockeditor/AppInfo.java:39-43 | The activity is the whole name when it has no `/`. Otherwise it is the suffix after the first `/`. |
| AppInfoRecord.ComponentNameRoundTrip | app/src/main/java/com/lumi/dockeditor/AppInfo.java:39-43 | Splitting a built component name gives back the activity whenever the package has no `/`. |
| AppInfoRecord.SlashInPackageLosesActivity | app/src/main/java/com/lumi/dockeditor/AppInfo.java:40 | With a `/` in the package name, the split activity is wrong (`a/b` + `c` gives back `b/c`). |
| AppInfoRecord.FromJson | app/src/main/java/com/lumi/dockeditor/AppInfo.java:24-50 | The JSON constructor keeps the original text. Each string field is read with `optString`, which gives the stored value when the key is present and the fallback otherwise. It gives defaults `Unknown`/`APP`/`ANDROID_6DOF` and an empty component without panel data. A malformed object or panel gives `JSON_Parse_Error`/`Error`, keeping type and platform in the panel case. Otherwise the activity is split from the component name. |
| AppInfoRecord.NewAppInfoAsWritten | app/src/main/java/com/lumi/dockeditor/AppInfo.java:55-78 | The constructor as written fails exactly when `activity` is null. |
| AppInfoRecord.NewAppInfo | app/src/main/java/com/lumi/dockeditor/AppInfo.java:55-78 | The corrected constructor stores the fields. A null activity becomes `""`. The component is built from package and activity, and the JSON is rendered from the stored fields. |
| AppInfoRecord.NewAppInfoAgrees | app/src/main/java/com/lumi/dockeditor/AppInfo.java:59-60 | For every non-null activity the two constructors agree. Only a null activity separates them. |
| AppInfoRecord.Parcel.WriteString | app/src/main/java/com/lumi/dockeditor/AppInfo.java:91-96 | A write appends one slot to the parcel. |
| AppInfoRecord.Parcel.ReadString | app/src/main/java/com/lumi/dockeditor/AppInfo.java:81-86 | A read returns the slot at the read position and advances past it. |
| AppInfoRecord.Fields | app/src/main/java/com/lumi/dockeditor/AppInfo.java:90-97 | An entry occupies six parcel slots. |
| AppInfoRecord.FieldsRoundTrip | app/src/main/java/com/lumi/dockeditor/AppInfo.java:80-97 | Reading six slots where an entry was written gives that entry back, whatever surrounds it. |
| AppInfoRecord.WriteToParcel | app/src/main/java/com/lumi/dockeditor/AppInfo.java:90-97 | The parcel grows by exactly the entry's six fields in write order. |
| AppInfoRecord.FromParcel | app/src/main/java/com/lumi/dockeditor/AppInfo.java:80-87 | The entry read is the six slots from the read position, and the position advances by six. |
| AppInfoRecord.ThroughParcel | app/src/main/java/com/lumi/dockeditor/AppInfo.java:80-97 | Writing an entry to a fresh parcel and reading it back reproduces every field. |
| AppInfoRecord.DisplayName | app/src/main/java/com/lumi/dockeditor/AppInfo.java:116-136 | The five built-in packages get their fixed labels. Otherwise a successful label lookup wins. |
| AppInfoRecord.DisplayNameFallback | app/src/main/java/com/lumi/dockeditor/AppInfo.java:127-133 | When the lookup fails, the result is the capitalised last non-empty dot piece. An all-dot name is kept as it is, and an empty name raises. |
| AppInfoRecord.DropTrailingEmpty | app/src/main/java/com/lumi/dockeditor/AppInfo.java:128 | `split` drops trailing empty pieces: the result is a prefix that does not end in an empty piece, and every piece dropped is empty. |
| AppInfoRecord.StripTrailingDots | app/src/main/java/com/lumi/dockeditor/AppInfo.java:128 | The result is a prefix of the name without a trailing `.`, and every character dropped is a `.`. |
| AppInfoRecord.Capitalised | app/src/main/java/com/lumi/dockeditor/AppInfo.java:131 | Only the first character is upper-cased, and the length is kept. |
| ShellWords.EscapeReadsAsQuote | app/src/main/java/com/lumi/dockeditor/RootShell.java:147 | Inside single quotes, `'"'"'` reads as one literal `'`. |
| ShellWords.EscapedBody | app/src/main/java/com/lumi/dockeditor/RootShell.java:147 | Escaped content followed by the closing quote reads back as the content. |
| ShellWords.SingleQuotedRoundTrip | app/src/main/java/com/lumi/dockeditor/RootShell.java:147 | The single-quoted, escaped word has the original content as its value after quote removal. |
| ShellWords.DoubleQuotedBody | app/src/main/java/com/lumi/dockeditor/RootShell.java:147-149 | A plain path followed by the closing `"` reads back as the path. |
| ShellWords.DoubleQuotedRoundTrip | app/src/main/java/com/lumi/dockeditor/RootShell.java:147-149 | A path free of `"`, `$`, backquote and backslash keeps its value inside double quotes. |
| ShellWords.QuoteInPathBreaksWord | app/src/main/java/com/lumi/dockeditor/RootShell.java:129 | A `"` in a path changes the word's value, so paths must avoid it. |
| Text.IndexOfFromFirst | app/src/main/java/com/lumi/dockeditor/MainActivity.java:133-134 | `indexOf` gives the first match at or after the start, or -1 when there is none. |
| Text.Trim | app/src/main/java/com/lumi/dockeditor/RootShell.java:138 | `trim` gives a slice of the input that neither starts nor ends with a character up to `' '`, and every character cut off on either side is one. |
| Text.ReplaceChars | app/src/main/java/com/lumi/dockeditor/RootShell.java:147 | `replace` introduces no character that is in neither the text nor the replacement. |
| Text.AfterLast | app/src/main/java/com/lumi/dockeditor/ActivitySelectionDialog.java:71 | `substring(lastIndexOf(c) + 1)` is the longest suffix without `c`. It is preceded by `c` unless it is the whole text. |
| RootShell.WireBytesConcat | app/src/main/java/com/lumi/dockeditor/RootShell.java:97-101 | The bytes written for consecutive strings are the bytes of each string in turn. |
| RootShell.WireBytesLatin1 | app/src/main/java/com/lumi/dockeditor/RootShell.java:98 | `writeBytes` sends text below U+0100 unchanged, one byte per character. |
| RootShell.WireBytesTruncates | app/src/main/java/com/lumi/dockeditor/RootShell.java:98 | `writeBytes` keeps only the low byte of each UTF-16 unit, so `Ā` goes out as 0. |
| RootShell.LinesCons | app/src/main/java/com/lumi/dockeditor/RootShell.java:105 | The peer reads a line ended by `\n` as one line and continues after it. |
| RootShell.NarrowArrivesIntact | app/src/main/java/com/lumi/dockeditor/RootShell.java:98 | Text below U+0100 reaches the shell byte for byte as written. |
| RootShell.WideCharacterBreaksQuoting | app/src/main/java/com/lumi/dockeditor/RootShell.java:98 | `ħ` goes out as the byte of `'`, so the single-quoted word `'ħ'` reaches the shell as three quotes, which have no value as a word. |
| RootShell.FramedLines | app/src/main/java/com/lumi/dockeditor/RootShell.java:97-101 | The shell reads a batch as its commands in order, then the sentinel `echo`. |
| RootShell.ReadUntilMarker | app/src/main/java/com/lumi/dockeditor/RootShell.java:104-110 | What the loop leaves unread is a suffix of the output lines, and something is left only when a line equals the sentinel. |
| RootShell.ReadUntilMarkerAt | app/src/main/java/com/lumi/dockeditor/RootShell.java:104-110 | With the first sentinel line at index k, the reply is the k lines before it, each with `\n`, and the lines after it stay unread. |
| RootShell.ReadUntilMarkerAll | app/src/main/java/com/lumi/dockeditor/RootShell.java:104-110 | Without a sentinel line the loop takes every line, each with `\n`, and leaves nothing. |
| RootShell.MarkerHidesLaterLines | app/src/main/java/com/lumi/dockeditor/RootShell.java:104-110 | Output after the sentinel is not part of the reply, and it stays queued for the next batch. |
| RootShell.UnterminatedOutputHidesMarker | app/src/main/java/com/lumi/dockeditor/RootShell.java:104-110 | Output whose last line has no newline glues onto the sentinel. The shell emits one line holding both, no line equals the sentinel, and the loop takes every line. Stated for output without `\r`. |
| RootShell.SuffixReadRecoversOutput | app/src/main/java/com/lumi/dockeditor/RootShell.java:104-110 | A loop that also accepts the sentinel at the end of a line returns exactly the output, with or without a final newline, and leaves the later lines unread. Stated for output without `\r`. |
| RootShell.FailureNamedAnywhere | app/src/main/java/com/lumi/dockeditor/RootShell.java:153 | A reply holding `Permission denied` or `No such file or directory` anywhere counts as naming an error. |
| RootShell.ReadOutcome | app/src/main/java/com/lumi/dockeditor/RootShell.java:133-138 | There is no content exactly when the reply names an error or is all blank. Content is the trimmed reply, so it is non-empty and neither starts nor ends with a blank. |
| RootShell.ReadContentIsClean | app/src/main/java/com/lumi/dockeditor/RootShell.java:133-138 | Content that is returned is a non-blank, trimmed slice of the reply that names neither error. |
| RootShell.MissingFileIsNotContent | app/src/main/java/com/lumi/dockeditor/RootShell.java:133-136 | A `cat` error message is reported as no content. |
| RootShell.WriteCommandWords | app/src/main/java/com/lumi/dockeditor/RootShell.java:147 | The `printf` command's two words have the content and the path as their values. When both are below U+0100, the bytes written spell that command exactly. |
| RootShell.SuProcess.constructor | app/src/main/java/com/lumi/dockeditor/RootShell.java:27-30 | A fresh peer has the scripted outputs, nothing written, and is not destroyed. |
| RootShell.SuProcess.WriteBytes | app/src/main/java/com/lumi/dockeditor/RootShell.java:98 | A write either fails with the peer's failure and changes nothing, or appends the string's wire bytes. |
| RootShell.SuProcess.ReadLine | app/src/main/java/com/lumi/dockeditor/RootShell.java:105 | `readLine` takes the next queued line, or gives null at end of stream. |
| RootShell.SuProcess.ReadStderrLine | app/src/main/java/com/lumi/dockeditor/RootShell.java:113 | A ready standard-error line is taken from the front of the queue. |
| RootShell.SuProcess.CloseInput | app/src/main/java/com/lumi/dockeditor/RootShell.java:57 | After `close`, every write fails. |
| RootShell.SuProcess.Destroy | app/src/main/java/com/lumi/dockeditor/RootShell.java:66 | The peer is destroyed. |
| RootShell.WriteBatch | app/src/main/java/com/lumi/dockeditor/RootShell.java:97-102 | The written stream grows by each command with `\n` and then the sentinel `echo`, or by nothing when writes fail. |
| RootShell.ReadReply | app/src/main/java/com/lumi/dockeditor/RootShell.java:104-110 | The reply and the remaining output are what `ReadUntilMarker` says. |
| RootShell.DrainStderr | app/src/main/java/com/lumi/dockeditor/RootShell.java:112-115 | Every ready standard-error line is appended with the `STDERR: ` prefix, and the queue is left empty. |
| RootShell.Shell.constructor | app/src/main/java/com/lumi/dockeditor/RootShell.java:24-25 | The shell starts with no session. |
| RootShell.Shell.InitRootShell | app/src/main/java/com/lumi/dockeditor/RootShell.java:24-47 | With a session already held, it returns true and touches nothing. An exec failure or write failure stores `Failed to initialize root shell: ` + message, leaves no session and returns false. After a write failure the process is destroyed and its queues, written bytes and failure are as they were. Otherwise it writes `id` and keeps the session exactly when the first reply line contains `uid=0`. If not, it shuts the session down. |
| RootShell.Shell.Shutdown | app/src/main/java/com/lumi/dockeditor/RootShell.java:52-73 | Afterwards there is never a session. A held process receives `exit` (when writes still succeed), is closed and is destroyed. A second call does nothing. |
| RootShell.Shell.ExecuteCommands | app/src/main/java/com/lumi/dockeditor/RootShell.java:89-123 | Without a session it writes nothing and returns the not-initialized message. A write failure returns `Exception in executeCommands: ` + message. Otherwise it writes the framed batch and returns the reply plus the prefixed standard-error lines. The result is always the stored last output. |
| RootShell.Shell.ExecuteCommand | app/src/main/java/com/lumi/dockeditor/RootShell.java:79-83 | One command runs exactly as the batch holding it alone. |
| RootShell.Shell.LastCommandOutput | app/src/main/java/com/lumi/dockeditor/RootShell.java:171-173 | The getter gives the stored last output. |
| RootShell.Shell.GetFileContent | app/src/main/java/com/lumi/dockeditor/RootShell.java:128-139 | It runs `cat "path"`. The result is no content when the reply names an error or is blank, else the trimmed reply. |
| RootShell.Shell.WriteFileContent | app/src/main/java/com/lumi/dockeditor/RootShell.java:144-158 | It runs the `printf`/`chmod`/`chown` batch and fails exactly when the reply names an error. |
| RootShell.Shell.CopyFile | app/src/main/java/com/lumi/dockeditor/RootShell.java:163-166 | It runs `cp "src" "dst"` and succeeds exactly when the reply names no error. |
| RootShell.SessionScenario | app/src/main/java/com/lumi/dockeditor/RootShell.java:24-123 | A peer that answers `id` as root is accepted, and a second init keeps it. `echo hello` replies `hello\n`, hiding the output after the sentinel. After shutdown a batch is refused with the not-initialized message and writes nothing. |
| MainActivity.PreferencesXml | app/src/main/java/com/lumi/dockeditor/EditPinnedActivity.java:143-147 | The written XML is the header, the pinned open tag, the JSON and the trailer holding history `[]`, in that order. |
| MainActivity.HeaderShape | app/src/main/java/com/lumi/dockeditor/EditPinnedActivity.java:143-145 | The template header contains no `<s` and ends in a space, so no pinned tag can start inside it. |
| MainActivity.ExtractPinnedExactly | app/src/main/java/com/lumi/dockeditor/MainActivity.java:133-140 | The corrected extraction (`ExtractPinned`) gives `v` exactly when `v` lies between the end of the first pinned open tag and the first following `</string>`. The code as written gives the same whenever the tag is present (`ExtractPinnedAgrees`). |
| MainActivity.ExtractPinnedFails | app/src/main/java/com/lumi/dockeditor/MainActivity.java:134-138 | The corrected extraction (`ExtractPinned`) fails when the open tag is missing, or when no `</string>` follows it. The intended parser (`IntendedPreferences`) then reports missing pinned data. The code as written does not fail on a missing tag (see "Findings"). |
| MainActivity.ExtractPinnedAsWritten | app/src/main/java/com/lumi/dockeditor/MainActivity.java:133-138 | Extracted text is followed in the file by `</string>` and holds no `</string>` itself. |
| MainActivity.EnclosedAsWritten | app/src/main/java/com/lumi/dockeditor/MainActivity.java:133-138 | The text starts at the index after the tag (found or not) and runs up to the first `</string>` from there. |
| MainActivity.ExtractPinnedAgrees | app/src/main/java/com/lumi/dockeditor/MainActivity.java:133-140 | When the open tag is present, the code as written and the corrected extraction agree. |
| MainActivity.MissingTagMisread | app/src/main/java/com/lumi/dockeditor/MainActivity.java:133-136 | With the open tag absent, the code as written reads from index 34 and returns a bogus text instead of failing. |
| MainActivity.ExtractTemplate | app/src/main/java/com/lumi/dockeditor/MainActivity.java:133-140 | From a saved template, both extractions give back the pinned text, provided it has no `</string>`. |
| MainActivity.DecodeEntities | app/src/main/java/com/lumi/dockeditor/MainActivity.java:141 | Text without `&` holds no entity and is left unchanged. |
| MainActivity.QuoteEntityRoundTrip | app/src/main/java/com/lumi/dockeditor/MainActivity.java:141 | Decoding undoes the `"` to `&quot;` encoding for text without `&`. |
| MainActivity.DecodeAmpOnce | app/src/main/java/com/lumi/dockeditor/MainActivity.java:141 | A leading `&amp;` decodes to `&` when the rest has no `&`. |
| MainActivity.DecodeOnce | app/src/main/java/com/lumi/dockeditor/MainActivity.java:141 | Because `&quot;` is replaced first, `&amp;quot;` decodes to `&quot;`, not to `"`. |
| MainActivity.DefaultObjects | app/src/main/java/com/lumi/dockeditor/MainActivity.java:32 | One default object per package, in order. |
| MainActivity.JoinedRender | app/src/main/java/com/lumi/dockeditor/MainActivity.java:32 | The rendered default entries are the default objects joined by `, `. |
| MainActivity.DefaultPreferencesDecode | app/src/main/java/com/lumi/dockeditor/MainActivity.java:29-34 | Extracting and decoding the default preferences gives the array of the five default objects. |
| MainActivity.EntryFromObject | app/src/main/java/com/lumi/dockeditor/MainActivity.java:147-153 | An element gives an entry exactly when it is an object with `packageName`, `type` and `platformName`. The entry carries those, and `activity` defaults to `""`. |
| MainActivity.Entries | app/src/main/java/com/lumi/dockeditor/MainActivity.java:146-155 | A successful loop gives exactly one entry per element. |
| MainActivity.EntriesExactly | app/src/main/java/com/lumi/dockeditor/MainActivity.java:146-155 | The loop succeeds exactly when every element gives an entry, and then the i-th entry comes from the i-th element. |
| MainActivity.EntriesPrefixFails | app/src/main/java/com/lumi/dockeditor/MainActivity.java:146-157 | One bad element fails the whole parse. |
| MainActivity.ParseAuiPreferences | app/src/main/java/com/lumi/dockeditor/MainActivity.java:130-164 | The method, with the start index computed as written, gives what the specification function `ParsedPreferences` describes: missing data, invalid JSON, or the entries of the decoded array. |
| MainActivity.BuildEntries | app/src/main/java/com/lumi/dockeditor/MainActivity.java:146-155 | The loop gives `Entries`: one entry per element in order, or nothing at the first element that is not a valid entry. |
| MainActivity.NotFoundAsWritten | app/src/main/java/com/lumi/dockeditor/MainActivity.java:133-138 | The parser as written reports missing pinned data exactly when no `</string>` follows the index it computes, the tag's `indexOf` plus 35. A missing tag alone never makes it fail. |
| MainActivity.PreferencesAgree | app/src/main/java/com/lumi/dockeditor/MainActivity.java:133-138 | The parser as written and the corrected one agree on every file holding the pinned open tag. Without the tag the corrected one reports missing pinned data. |
| MainActivity.MissingTagParsed | app/src/main/java/com/lumi/dockeditor/MainActivity.java:133-138 | On a file with only the history string, the parser as written hands `history">[]` to the JSON parser instead of reporting missing data. The corrected one reports it missing. |
| MainActivity.EntriesOrder | app/src/main/java/com/lumi/dockeditor/MainActivity.java:146-154 | The parsed entries keep the array order, field by field. |
| MainActivity.ParsedPreferencesOrder | app/src/main/java/com/lumi/dockeditor/MainActivity.java:133-154 | A successful parse means the extraction as written and the decoding succeeded, and the entries follow the decoded array's order. |
| MainActivity.DefaultPreferencesParse | app/src/main/java/com/lumi/dockeditor/MainActivity.java:29-34 | The default preferences parse to five entries: explore, store, messenger, share, browser, each with no activity and no component. |
| MainActivity.DefaultEntries | app/src/main/java/com/lumi/dockeditor/MainActivity.java:146-153 | Each default element becomes its package's entry with an empty activity. |
| MainActivity.SelinuxLabel | app/src/main/java/com/lumi/dockeditor/MainActivity.java:186-194 | The label always starts with `SELinux: `. |
| MainActivity.SelinuxLabelCases | app/src/main/java/com/lumi/dockeditor/MainActivity.java:188-194 | The Enforcing label appears exactly when the trimmed reply equals `Enforcing` ignoring case, and likewise for Permissive. Otherwise the label is `SELinux: ` + the trimmed reply + ` ?`. |
| MainActivity.ListedBackups | app/src/main/java/com/lumi/dockeditor/MainActivity.java:251 | A name is listed exactly when it is a directory entry ending in `.xml`. |
| MainActivity.TimestampFields | app/src/main/java/com/lumi/dockeditor/MainActivity.java:370-371 | The `yyyyMMdd_HHmmss` stamp has 15 characters. Each field reads back as its value, with `_` at index 8. |
| MainActivity.BackupFileNameShape | app/src/main/java/com/lumi/dockeditor/MainActivity.java:372 | A backup name is `AUI_PREFERENCES_` + stamp + `.xml`, 35 characters long. |
| MainActivity.BackupNamesDistinct | app/src/main/java/com/lumi/dockeditor/MainActivity.java:408-410 | Different times give different backup names. |
| MainActivity.BackupIsListed | app/src/main/java/com/lumi/dockeditor/MainActivity.java:217 | A backup that was written is among the listed backups. |
| EditPinnedActivity.AddButtonText | app/src/main/java/com/lumi/dockeditor/EditPinnedActivity.java:191-192 | The text is `Max Apps Reached` from five entries on, else `Add App (n/5)`. |
| EditPinnedActivity.Swapped | app/src/main/java/com/lumi/dockeditor/EditPinnedActivity.java:171 | The two positions exchange their entries, and every other position is unchanged. |
| EditPinnedActivity.SwappedPermutes | app/src/main/java/com/lumi/dockeditor/EditPinnedActivity.java:171 | A swap is a permutation. |
| EditPinnedActivity.SwappedTwice | app/src/main/java/com/lumi/dockeditor/EditPinnedActivity.java:171 | Swapping twice restores the list. |
| EditPinnedActivity.Removed | app/src/main/java/com/lumi/dockeditor/EditPinnedActivity.java:182 | Removing drops exactly one position and keeps the others in order. |
| EditPinnedActivity.RemovedExactly | app/src/main/java/com/lumi/dockeditor/EditPinnedActivity.java:182 | The removed entry plus the rest is the original multiset. |
| EditPinnedActivity.Edited | app/src/main/java/com/lumi/dockeditor/EditPinnedActivity.java:222-226 | An edit takes package, activity, component and JSON from the pick, and keeps type and platform. |
| EditPinnedActivity.PickedEntry | app/src/main/java/com/lumi/dockeditor/EditPinnedActivity.java:208-213 | A picked activity becomes an `APP`/`ANDROID_6DOF` entry with component `pkg/activity`, or `""` for an empty activity. |
| EditPinnedActivity.AfterPick | app/src/main/java/com/lumi/dockeditor/EditPinnedActivity.java:206-231 | A pick grows the list by at most one entry, and a list of at most five entries stays at most five. |
| EditPinnedActivity.AfterPickShape | app/src/main/java/com/lumi/dockeditor/EditPinnedActivity.java:215-228 | An add appends only below five entries, so a list of at most five stays that way. An edit touches only its own position and keeps its type and platform. |
| EditPinnedActivity.PinnedEditor.constructor | app/src/main/java/com/lumi/dockeditor/EditPinnedActivity.java:28-48 | The editor starts with the loaded list, the add button set from its size, and saving off. |
| EditPinnedActivity.PinnedEditor.UpdateAddButtonState | app/src/main/java/com/lumi/dockeditor/EditPinnedActivity.java:189-193 | The add button is enabled exactly below five entries, and its text follows `AddButtonText`. |
| EditPinnedActivity.PinnedEditor.OnAppReorder | app/src/main/java/com/lumi/dockeditor/EditPinnedActivity.java:169-175 | Distinct positions are swapped in place and saving is enabled. Equal positions change nothing. |
| EditPinnedActivity.PinnedEditor.OnAppRemove | app/src/main/java/com/lumi/dockeditor/EditPinnedActivity.java:181-187 | The entry is removed in place, the add button is refreshed and saving is enabled. |
| EditPinnedActivity.PinnedEditor.OnActivitySelected | app/src/main/java/com/lumi/dockeditor/EditPinnedActivity.java:206-231 | The pick is added or edited in place as `AfterPick` says. The add button is refreshed only after an add, and saving is enabled. |
| EditPinnedActivity.PinnedArray | app/src/main/java/com/lumi/dockeditor/EditPinnedActivity.java:119-137 | The array text always opens with `[` and closes with `]`. |
| EditPinnedActivity.ItemsJoin | app/src/main/java/com/lumi/dockeditor/EditPinnedActivity.java:119-134 | The loop's items are the objects joined by `, `, except that ` ,` comes before the last one. |
| EditPinnedActivity.BuildPinnedArray | app/src/main/java/com/lumi/dockeditor/EditPinnedActivity.java:119-137 | The builder loop produces exactly `PinnedArray`. |
| EditPinnedActivity.ItemsArray | app/src/main/java/com/lumi/dockeditor/EditPinnedActivity.java:119-135 | The bracketed loop output equals the separator rule of `PinnedArray`. |
| EditPinnedActivity.PinnedArraySmall | app/src/main/java/com/lumi/dockeditor/EditPinnedActivity.java:119-135 | Zero objects give `[]`, one has no separator, and two are separated by ` ,`. |
| EditPinnedActivity.EncodeForXml | app/src/main/java/com/lumi/dockeditor/EditPinnedActivity.java:139-141 | The encoded text contains no `"`. |
| EditPinnedActivity.SaveRoundTrip | app/src/main/java/com/lumi/dockeditor/EditPinnedActivity.java:139-147 | For JSON without `&` or `\/` whose encoding has no `</string>`, extracting from the saved XML gives the encoding, with the extraction as written and the corrected one alike, and decoding gives the JSON back. |
| EditPinnedActivity.ObjectTextsFail | app/src/main/java/com/lumi/dockeditor/EditPinnedActivity.java:100-116 | One entry whose JSON cannot be rebuilt aborts the save. |
| EditPinnedActivity.SaveChanges | app/src/main/java/com/lumi/dockeditor/EditPinnedActivity.java:96-167 | A failed object rebuild writes nothing and leaves the shell, its process and the save button as they were. Otherwise the template holding the encoded array is written through the root shell. Success follows `writeFileContent`, and saving is disabled only after a successful write. |

## Left out

- Process plumbing is not modelled: `Runtime.exec`, stream wrappers, `flush`, `waitFor` and interrupt status. The process is an abstract peer with scripted output queues. `rootStderr.ready()` is taken to mean "lines are queued", which in reality depends on timing.
- The four handles `rootProcess`, `rootOutput`, `rootStdout` and `rootStderr` are one nullable field, because the code always sets and clears them together.
- End of stream is modelled as an empty output queue. A live `su` process instead blocks in `readLine` when no sentinel line comes, so the unterminated-output case under "Findings" hangs rather than returning.
- RootShell.UnterminatedOutputHidesMarker: stated only for output without `\r`. The model splits the reply at `\n`, but `readLine` also ends a line at `\r` and `\r\n`, so output ending in `\r` would set the sentinel on a line of its own and be read correctly.
- RootShell.SuffixReadRecoversOutput: stated only for output without `\r`, for the same reason. `readLine` would turn a `\r\n` inside the output into `\n`, so the reply would not equal the output byte for byte.
- RootShell.WriteCommandWords: the bytes written spell the command only for content and paths below U+0100. Above that, `writeBytes` keeps the low byte, so the shell may read a different word.
- A peer's write failure is modelled as persistent: either every write fails or none does. An `IOException` from `readLine` or `close` is not modelled.
- The `suCommand` parameter of `initRootShell` is not modelled. The result of `exec` is a parameter (`Exec`).
- Threads are not modelled. The background workers that share the static shell are modelled as calls one after another.
- org.json is not part of this model:
  - `new JSONArray(text)` is the `ArrayParse` parameter;
  - `JSONObject.toString()` in the 4-argument constructor is the `JsonRender` parameter;
  - the per-entry object rebuild in `saveChanges` (`put`/`remove` of `packageName`, `appPanelData` and `activity`) is the `toJson` parameter;
  - the JSON constructor receives the parsed object (`ParsedObject`) instead of text.
- `PackageManager` and resources are not modelled. The launch class, the package listing and the application label are parameters.
- Local files are not modelled: reading and writing backups, `getCacheDir`, `mkdirs`, and sorting by `lastModified`. The directory listing is a parameter.
- `SimpleDateFormat` and `Date` are not modelled. The time is a `DateTime` parameter, and `FitsPattern` limits the year to four digits.
- The UI is not modelled:
  - Toasts, `runOnUiThread`, button wiring, `finish()`, adapters and their notifications, `ItemTouchHelper`;
  - `AppListAdapter`, `AppSelectionDialog` and `InstalledAppInfo`;
  - `restoreDefaults`, `restoreFromBackup` and the backup-creation screens, which only chain the modelled shell helpers.
- Logging (`logToUi`, `Log`, `printStackTrace`) is not modelled.
- The shell meaning of `cat`, `printf`, `chmod`, `chown` and `cp` is not modelled. Only the command strings and the output-phrase heuristics are.
- RootShell.WriteCommandWords: paths are proved to keep their value only when they are free of `"`, `$`, backquote and backslash, because the code wraps them in `"…"` without escaping.
- ShellWords.DoubleQuotedRoundTrip: same restriction on paths, for the same reason.
- Case mapping covers ASCII only (`UpperAscii`, `EqualsIgnoreCase`). Java's full Unicode case rules are not modelled.
- In-place field writes on a shared `AppInfo` object are modelled as replacing the list element. Aliasing of that object elsewhere is not modelled.
- EditPinnedActivity.PinnedEditor.constructor: the save button's initial state comes from the layout file, which is not part of this model. It is modelled as disabled. A missing `appList` extra, which closes the screen, is not modelled: the editor is built from a list.
- The exception message texts of `parseAuiPreferences` are not modelled. Its two failure kinds are the `ParseFailure` values.

## Findings

| source | as written | input that shows it | evidently intended | confidence | as-written member | corrected member |
|---|---|---|---|---|---|---|
| app/src/main/java/com/lumi/dockeditor/MainActivity.java:133-136 | `startIndex` is `indexOf(tag) + 35`, so a missing tag gives 34, and the `startIndex == -1` guard never fires | preferences holding only the history string (`HistoryOnly`): the text from index 34 to the next `</string>` is returned as pinned data | a missing pinned tag fails with "Could not find pinned apps data" | not executed | MainActivity.MissingTagMisread | MainActivity.ExtractPinnedFails |
| app/src/main/java/com/lumi/dockeditor/AppInfo.java:59-60 | line 59 guards `activity` against null, but line 60 calls `activity.isEmpty()` on the raw parameter | `new AppInfo(pkg, "APP", "ANDROID_6DOF", null)` raises a NullPointerException | a null activity is treated as `""` | not executed | AppInfoRecord.NewAppInfoAsWritten | AppInfoRecord.NewAppInfoAgrees |
| app/src/main/java/com/lumi/dockeditor/RootShell.java:104-110 | the loop stops only at a line equal to `--END_OF_COMMAND--`, but `cat` of a file written with `printf '%s'` ends without a newline, so the sentinel lands at the end of the last output line | a file holding `abc` with no final newline: the shell emits `abc--END_OF_COMMAND--` and no sentinel line | the reply ends where the sentinel starts, even when it is not at the start of a line | not executed | RootShell.UnterminatedOutputHidesMarker | RootShell.SuffixReadRecoversOutput |
