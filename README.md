# EnvironmentSpanner, modelled in Dafny

EnvironmentSpanner is a WPF editor for Windows environment variables. Its
logic lives in three view models:

- The session (`MainWindowViewModel`). It loads the user and machine scopes
  into two lists of rows, sorted by name, and keeps a value copy of each
  list as a snapshot. It tracks elevation, whether the machine scope is
  read-only, and whether edits are pending. On save it compares each list
  with its snapshot and sends the store one set per new or changed entry
  and one delete per vanished name; the machine scope is written only when
  the process is elevated. It then reloads.
- The row wrapper (`EnvironmentVariableViewModel`). It writes `Name` and
  `Value` through to the wrapped entry and reports a change only when the
  text differs; that report is what sets the session's pending flag.
- The list-value editor (`ListEditorViewModel`). It turns a `;`-separated
  value into items (split, drop empty segments, trim) and items back into a
  value (drop blank items, join with `;`). It edits the items with a
  selection cursor: add, remove with reselection, update, cancel.

The store behind the editor (`IEnvironmentVariableService`) is a class
holding one name-to-value map per scope. It records every set and delete it
receives in a trace, so "called exactly once" and "never called" become
statements about the trace.

Modules, one per file:

| file | module | models |
|---|---|---|
| `text.dfy` | `Text` | `char.IsWhiteSpace`, `string.Trim`, `IsNullOrWhiteSpace`, `Split(char)`, `string.Join` |
| `collections.dfy` | `Collections` | `Collection<T>.IndexOf` and `Remove` (first occurrence) |
| `environment_variable.dfy` | `Models` | `Models/EnvironmentVariable.cs` |
| `environment_variable_view_model.dfy` | `ViewModels` | `ViewModels/EnvironmentVariableViewModel.cs` |
| `gateway.dfy` | `Gateway` | `Services/IEnvironmentVariableService.cs` as a map per scope plus a call trace; `ToDictionary` |
| `sorting.dfy` | `Sorting` | `OrderBy(v => v.Name)` |
| `change_tracking.dfy` | `ChangeTracking` | the calls `Save` issues, as functions of the lists and snapshots |
| `registry_scope.dfy` | `RegistryScope` | a scope whose names ignore letter case, as the Windows store keeps them, and the case-only rename |
| `list_editor.dfy` | `ListEditor` | `ViewModels/ListEditorViewModel.cs` |
| `main_window_view_model.dfy` | `MainWindow` | `ViewModels/MainWindowViewModel.cs` |

`MainWindowViewModel.Valid()` is the session invariant. It says:

- the two elevation flags agree;
- user rows are editable and system rows are read-only exactly when the session is;
- every row carries its list's delete handler and scope;
- no two rows share an entry;
- each snapshot names every variable once, so building its dictionary never throws.

`Loaded()` is what a load establishes:

- both lists are sorted;
- each list shows exactly its scope of the store;
- the snapshots equal the lists;
- nothing is pending.

## Model

| member | source | states |
|---|---|---|
| Models.EnvironmentVariable.constructor | Models/EnvironmentVariable.cs:7-14 | A fresh entry has an empty name, an empty value and the default (`Process`) scope. |
| Models.EnvironmentVariable.Init | ViewModels/MainWindowViewModel.cs:178-183 | An entry built by an object initializer carries the given name, value and scope. |
| Models.EnvironmentVariable.IsListValue | Models/EnvironmentVariable.cs:16 | An entry is a list value exactly when splitting its value on `;` gives at least two segments; the empty value never is one. |
| Models.EnvironmentVariable.ListValueExamples | Tests/ViewModels/EnvironmentVariableViewModelTests.cs:30-60 | `C:\Path1;C:\Path2` is a list value and `SimpleValue` is not. |
| ViewModels.EnvironmentVariableViewModel.constructor | ViewModels/EnvironmentVariableViewModel.cs:15-22 | The row wraps the given entry and delete handler; `IsReadOnly` is the argument and `CanEdit` its negation. |
| ViewModels.EnvironmentVariableViewModel.SetName | ViewModels/EnvironmentVariableViewModel.cs:24-35 | Writes the name through to the entry and reports a change exactly when the old name differs; the value is untouched. |
| ViewModels.EnvironmentVariableViewModel.SetValue | ViewModels/EnvironmentVariableViewModel.cs:37-49 | Writes the value through and reports a change exactly when the old value differs; the name is untouched and, with no change, so is the list-value flag. |
| ViewModels.EnvironmentVariableViewModel.IsListValue | ViewModels/EnvironmentVariableViewModel.cs:57 | The row's flag is the entry's: at least two `;` segments, hence the value contains `;`. |
| ViewModels.EnvironmentVariableViewModel.CanOpenListEditor | ViewModels/EnvironmentVariableViewModel.cs:62-65 | The list editor can be opened exactly when the value is non-empty and contains `;`. |
| Text.TrimStart | ViewModels/ListEditorViewModel.cs:37 | The result is a suffix of the input that does not start with white space, and everything cut off is white space. |
| Text.TrimEnd | ViewModels/ListEditorViewModel.cs:37 | The result is a prefix of the input that does not end with white space, and everything cut off is white space. |
| Text.Trim | ViewModels/ListEditorViewModel.cs:37 | `Trim()` leaves no white space at either end; it is empty exactly for blank input; it returns a trimmed input unchanged; and it adds no character. |
| Text.TrimmedBothEnds | ViewModels/ListEditorViewModel.cs:37 | Trimming the front and then the back leaves neither end white. |
| Text.TrimEmptyIffBlank | ViewModels/ListEditorViewModel.cs:37 | The trimmed string is empty exactly when the input is all white space. |
| Text.TrimKeepsTrimmed | ViewModels/ListEditorViewModel.cs:37 | Trimming an already trimmed string changes nothing. |
| Text.IsWhiteSpace | ViewModels/ListEditorViewModel.cs:116 | `char.IsWhiteSpace`: space, tab, line feed and carriage return are white space, and no white-space character lies above U+3000. |
| Text.IsBlank | ViewModels/ListEditorViewModel.cs:111 | `IsNullOrWhiteSpace` on a non-null string: the empty string is blank, and a non-empty blank string starts and ends with white space. |
| Text.Join | ViewModels/ListEditorViewModel.cs:116 | `string.Join`: the parts with the separator between neighbours. JoinSplit, SplitJoin and JoinEmptyIff state its properties. |
| Text.Split | ViewModels/ListEditorViewModel.cs:34 | `Split(';')` yields at least one segment and no segment contains the separator. |
| Text.JoinSplit | ViewModels/ListEditorViewModel.cs:34 | Joining the segments of a split with the separator gives back the input. |
| Text.SplitJoin | ViewModels/ListEditorViewModel.cs:34 | Splitting a join of separator-free segments gives back the segments. |
| Text.SplitIsSingleIff | Models/EnvironmentVariable.cs:16 | A value splits into one segment exactly when it has no `;`. |
| Collections.IndexOf | ViewModels/ListEditorViewModel.cs:58 | `IndexOf` finds the first occurrence, or gives -1 exactly when the item is absent. |
| Collections.RemoveFirst | ViewModels/ListEditorViewModel.cs:59 | `Remove` takes out the first occurrence only, shortening by one; an absent item changes nothing; nothing new appears. |
| Collections.RemoveFirstCount | ViewModels/MainWindowViewModel.cs:155 | Removing takes away exactly one copy of the item when there is one, and none otherwise. |
| Gateway.ToMap | ViewModels/MainWindowViewModel.cs:210-211 | The dictionary built from a snapshot has exactly the listed names as keys, and, when no name repeats, finds every listed pair under its own name. |
| Gateway.DistinctUnique | ViewModels/MainWindowViewModel.cs:210-211 | With distinct names, a name identifies its pair. |
| Gateway.NamesAt | ViewModels/MainWindowViewModel.cs:216 | A name is in the name set exactly when some position carries it. |
| Gateway.ApplyConcat | Services/IEnvironmentVariableService.cs:9-10 | Issuing two batches of calls is issuing the first, then the second. |
| Gateway.ApplyUntouched | Services/IEnvironmentVariableService.cs:9-10 | A name no call of a scope mentions keeps its presence and value in that scope. |
| Gateway.ApplyOtherScope | Services/IEnvironmentVariableService.cs:9-10 | Calls addressed to other scopes leave a scope as it was. |
| Gateway.EnvironmentStore.constructor | Services/IEnvironmentVariableService.cs:8-11 | A store starts from the given user and machine maps, an empty process map, the given elevation and an empty trace. |
| Gateway.EnvironmentStore.GetEnvironmentVariables | Services/IEnvironmentVariableService.cs:8 | Lists a scope once per name, and the listing's dictionary is exactly the scope's map. |
| Gateway.EnvironmentStore.IsElevated | Services/IEnvironmentVariableService.cs:11 | The elevation answer is the one the store was created with, so asking again gives the same answer. |
| Gateway.EnvironmentStore.SetEnvironmentVariable | Services/IEnvironmentVariableService.cs:9 | Records the set and writes the value into its scope only. |
| Gateway.EnvironmentStore.DeleteEnvironmentVariable | Services/EnvironmentVariableService.cs:68 | Records the delete and removes the name from its scope only (setting to null removes it). |
| Sorting.Insert | ViewModels/MainWindowViewModel.cs:86 | Inserting keeps the sequence sorted and adds exactly the one pair. |
| Sorting.SortByName | ViewModels/MainWindowViewModel.cs:86 | `OrderBy(v => v.Name)` returns a sorted permutation of its input. |
| Sorting.InsertKeepsNames | ViewModels/MainWindowViewModel.cs:86 | Inserting a pair under a fresh name keeps names distinct and adds that name. |
| Sorting.InsertKeepsMap | ViewModels/MainWindowViewModel.cs:86 | Inserting a pair under a fresh name adds exactly that pair to the dictionary. |
| Sorting.SortKeepsBindings | ViewModels/MainWindowViewModel.cs:86 | Sorting a listing with distinct names keeps the names distinct and keeps the name-to-value map. |
| ChangeTracking.Changed | ViewModels/MainWindowViewModel.cs:218-235 | The entries that get a set are exactly the current entries that are new or changed. |
| ChangeTracking.NeedsSet | ViewModels/MainWindowViewModel.cs:220-234 | Defines when the first loop sets a pair: its name is not in the snapshot dictionary, or the dictionary holds another value for it. |
| ChangeTracking.SetCalls | ViewModels/MainWindowViewModel.cs:218-235 | Defines the sets the first loop issues, one per current entry that needs one, in list order. SetCallsExactly and SetCount state what they are. |
| ChangeTracking.DeleteCalls | ViewModels/MainWindowViewModel.cs:237-245 | Defines the deletes the second loop issues, one per snapshot name missing from the current names, in snapshot order. DeleteCallsExactly states what they are. |
| ChangeTracking.ScopeCalls | ViewModels/MainWindowViewModel.cs:216-245 | Defines everything saved for one scope: its sets, then its deletes. |
| ChangeTracking.SaveCalls | ViewModels/MainWindowViewModel.cs:213-284 | Defines everything `Save` issues: the user scope, then the machine scope only when elevated (SaveScopes and SaveCallOrder). |
| ChangeTracking.CommittedValue | ViewModels/MainWindowViewModel.cs:218-235 | After the sets, a current name holds the value its entry shows, when names are distinct. |
| ChangeTracking.SetCallsExactly | ViewModels/MainWindowViewModel.cs:218-235 | A set is issued exactly for a current pair whose name is new or whose value differs from the snapshot, in the saved scope. |
| ChangeTracking.DeleteCallsExactly | ViewModels/MainWindowViewModel.cs:237-245 | A delete is issued exactly for a snapshot name that no current entry carries, in the saved scope. |
| ChangeTracking.SetCount | ViewModels/MainWindowViewModel.cs:218-235 | A given set is issued once per current entry carrying that pair if it is new or changed, and never otherwise. |
| ChangeTracking.ScopeCallsTarget | ViewModels/MainWindowViewModel.cs:216-245 | Every call for a scope is addressed to that scope. |
| ChangeTracking.ScopeCallsDisjoint | ViewModels/MainWindowViewModel.cs:216-245 | Within a scope, no name is both set and deleted. |
| ChangeTracking.UnchangedScopeIsSilent | ViewModels/MainWindowViewModel.cs:218-245 | A list equal to its snapshot yields no call at all. |
| ChangeTracking.NoSetsForUnchanged | ViewModels/MainWindowViewModel.cs:220-227 | Entries whose pairs are all in the snapshot yield no set. |
| ChangeTracking.NoDeletesForKept | ViewModels/MainWindowViewModel.cs:238-244 | When every snapshot name is still present, no delete is issued. |
| ChangeTracking.ReplaceOneEntry | ViewModels/MainWindowViewModel.cs:216-245 | Changing one entry yields one set for the new pair if it differs, plus one delete of the old name if the entry was renamed. |
| ChangeTracking.AppendOneEntry | ViewModels/MainWindowViewModel.cs:229-234 | A new entry under a fresh name yields exactly one set and nothing else. |
| ChangeTracking.RemoveOneEntry | ViewModels/MainWindowViewModel.cs:237-245 | Removing one entry yields exactly one delete, of its name. |
| ChangeTracking.ApplySets | ViewModels/MainWindowViewModel.cs:218-235 | Issuing the sets overlays the changed pairs on the store's map. |
| ChangeTracking.ApplyDeletes | ViewModels/MainWindowViewModel.cs:237-245 | Issuing the deletes removes exactly the vanished snapshot names. |
| ChangeTracking.SaveCommitsScope | ViewModels/MainWindowViewModel.cs:216-245 | If the store still holds the snapshot and the current names are distinct, saving a scope leaves it holding exactly the current pairs. |
| ChangeTracking.SaveLeavesUntouched | ViewModels/MainWindowViewModel.cs:216-245 | A name no call mentions keeps whatever the store holds, including values written by someone else since the load. |
| ChangeTracking.SaveScopes | ViewModels/MainWindowViewModel.cs:248-284 | Without elevation every call is a user-scope call; with elevation the calls after the user ones are exactly the machine scope's own. |
| ChangeTracking.NewMachineEntry | ViewModels/MainWindowViewModel.cs:252-269 | A machine entry added under a fresh name is set exactly once, in the machine scope, when elevated, and nothing goes to the machine scope otherwise. |
| ChangeTracking.SaveCallOrder | ViewModels/MainWindowViewModel.cs:213-285 | All user calls come before all machine calls, and within a scope all sets come before all deletes. |
| ChangeTracking.DuplicateNameEarlierChangeWins | ViewModels/MainWindowViewModel.cs:218-235 | With two entries named `A`, values `2` then the unchanged `1`, only `A=2` is set, so the store ends with `2` although the last entry says `1`. |
| RegistryScope.Fold | Services/EnvironmentVariableService.cs:53 | The key the Windows store files a name under: same length, ASCII letters upper-cased. |
| RegistryScope.FoldIdempotent | Services/EnvironmentVariableService.cs:53 | A folded name is its own key. |
| RegistryScope.RegistryEffect | Services/EnvironmentVariableService.cs:53-68 | Defines a set or delete on a scope whose names ignore letter case. |
| RegistryScope.RegistryApplyConcat | Services/EnvironmentVariableService.cs:53-68 | Issuing two batches of calls to such a scope is issuing the first, then the second. |
| RegistryScope.PathIsPATH | Services/EnvironmentVariableService.cs:53 | `Path` and `PATH` are two names to `Save` but one key in the store. |
| RegistryScope.CaseOnlyRenameLosesVariable | ViewModels/MainWindowViewModel.cs:216-245 | As written: a rename that only changes letter case issues a set of the new spelling and then a delete of the old one, and the variable the list shows is gone from a case-insensitive store. |
| RegistryScope.FoldedNames | ViewModels/MainWindowViewModel.cs:216 | The current names as the store compares them: every current name's key is in it. |
| RegistryScope.RegistryDeleteCalls | ViewModels/MainWindowViewModel.cs:237-245 | Corrected delete loop: no delete is issued for a name that a current name equals up to letter case. |
| RegistryScope.RegistryScopeCalls | ViewModels/MainWindowViewModel.cs:216-245 | Defines the corrected save of one scope: the same sets, then the corrected deletes. |
| RegistryScope.SetsStore | ViewModels/MainWindowViewModel.cs:218-235 | In a case-insensitive scope the sets remove no key and store every pair that needs a set. |
| RegistryScope.DeletesSpare | ViewModels/MainWindowViewModel.cs:237-245 | The corrected deletes keep the key of every current name. |
| RegistryScope.CorrectedSaveKeepsListed | ViewModels/MainWindowViewModel.cs:216-245 | Corrected: when the store holds every snapshot name, saving leaves every variable the list shows present in the case-insensitive store. |
| ListEditor.DropEmpty | ViewModels/ListEditorViewModel.cs:34 | `RemoveEmptyEntries` keeps exactly the non-empty segments; DropEmptyCount and DropEmptyConcat give their number and order. |
| ListEditor.DropBlank | ViewModels/ListEditorViewModel.cs:116 | The `Where` keeps exactly the non-blank items, and keeps everything when nothing is blank; DropBlankCount and DropBlankConcat give their number and order. |
| ListEditor.DropEmptyCount | ViewModels/ListEditorViewModel.cs:34 | Every non-empty segment survives as often as it occurs, and no empty one survives. |
| ListEditor.DropEmptyConcat | ViewModels/ListEditorViewModel.cs:34 | Dropping empty segments works piece by piece, so the survivors keep their order. |
| ListEditor.DropBlankCount | ViewModels/ListEditorViewModel.cs:116 | Every non-blank item survives as often as it occurs, and no blank one survives. |
| ListEditor.DropBlankConcat | ViewModels/ListEditorViewModel.cs:116 | Dropping blank items works piece by piece, so the survivors keep their order. |
| ListEditor.Decode | ViewModels/ListEditorViewModel.cs:30-39 | The empty value gives no items; there are at most as many items as segments; every item is trimmed and free of `;`. |
| ListEditor.TrimEach | ViewModels/ListEditorViewModel.cs:35-38 | Each segment is trimmed, in order, one item per segment. |
| ListEditor.Encode | ViewModels/ListEditorViewModel.cs:115-116 | The result is empty exactly when every item is blank. |
| ListEditor.JoinEmptyIff | ViewModels/ListEditorViewModel.cs:116 | Joining non-blank items gives the empty string only for no items. |
| ListEditor.RoundTrip | ViewModels/ListEditorViewModel.cs:115-116 | Items that are non-blank, trimmed and free of `;` come back unchanged from encoding and decoding. |
| ListEditor.DecodeThenDropIsCanonical | ViewModels/ListEditorViewModel.cs:34-37 | Decoded items, once the blank ones are dropped, are non-blank, trimmed and free of `;`. |
| ListEditor.DropBlankTwice | ViewModels/ListEditorViewModel.cs:116 | Dropping blank items twice is dropping them once. |
| ListEditor.DecodeEncodeIdempotent | ViewModels/ListEditorViewModel.cs:115-116 | Decoding the result of encoding decoded items gives those items without the blank ones, and encoding again gives the same value. |
| ListEditor.NonListDecodesToAtMostOne | ViewModels/ListEditorViewModel.cs:34 | A value without `;` decodes to at most one item. |
| ListEditor.ThreeItems | Tests/ViewModels/ListEditorViewModelTests.cs:38-50 | Three items joined with `;` decode to themselves and encode back to the same value (the `Item1;Item2;Item3` case). |
| ListEditor.BlankSegment | ViewModels/ListEditorViewModel.cs:34-37 | A blank segment between two items is kept as an empty item by decoding and left out by encoding. |
| ListEditor.DecodeItems | ViewModels/ListEditorViewModel.cs:32-39 | The loop of `Initialize` builds exactly the decoded items. |
| ListEditor.TrimAll | ViewModels/ListEditorViewModel.cs:35-38 | The `foreach` appends every part, trimmed, in order. |
| ListEditor.ListEditorViewModel.constructor | ViewModels/ListEditorViewModel.cs:12-21 | A new editor has no items, no name, no selection and empty texts. |
| ListEditor.ListEditorViewModel.SetSelectedItem | ViewModels/ListEditorViewModel.cs:90-95 | Setting the selection copies it into the edit text (empty for none), but only when the selection actually changes. |
| ListEditor.ListEditorViewModel.SetEditText | ViewModels/ListEditorViewModel.cs:87-88 | The edit text takes the new value; nothing else changes. |
| ListEditor.ListEditorViewModel.Initialize | ViewModels/ListEditorViewModel.cs:26-43 | The items are the decoded value, the first item (or none) is selected, and the edit text follows the selection. |
| ListEditor.ListEditorViewModel.AddItem | ViewModels/ListEditorViewModel.cs:45-51 | Appends `New Item` behind the unchanged earlier items and selects it. |
| ListEditor.ListEditorViewModel.RemoveItem | ViewModels/ListEditorViewModel.cs:53-83 | Without a selection in the items nothing changes. Otherwise the first occurrence goes, the count drops by one, and the item now at that index is selected, else the one before, else nothing with an empty edit text. |
| ListEditor.ListEditorViewModel.UpdateItem | ViewModels/ListEditorViewModel.cs:97-109 | With a selection in the items and a non-blank edit text, only the first occurrence is replaced by the edit text, which becomes the selection; otherwise nothing changes. |
| ListEditor.ListEditorViewModel.CanRemoveItem | ViewModels/ListEditorViewModel.cs:85 | Enabled whenever removal would act; disabled without a selection or without items. |
| ListEditor.ListEditorViewModel.CanUpdateItem | ViewModels/ListEditorViewModel.cs:111 | Enabled whenever updating would act; disabled without a selection or with a blank edit text. |
| ListEditor.ListEditorViewModel.Cancel | ViewModels/ListEditorViewModel.cs:113 | Whatever was edited, the items are again exactly the decoded original value, the first one is selected, and the edit text follows a changed selection as in `Initialize`. |
| ListEditor.ListEditorViewModel.GetResultValue | ViewModels/ListEditorViewModel.cs:115-116 | The result is empty exactly when all items are blank, and canonical items decode back from it unchanged. |
| MainWindow.Bindings | ViewModels/MainWindowViewModel.cs:127-135 | The snapshot copy has one name/value pair per row. |
| MainWindow.BindingsAt | ViewModels/MainWindowViewModel.cs:127-135 | The pair at each position is that row's entry's name and value. |
| MainWindow.BindingsSnoc | ViewModels/MainWindowViewModel.cs:90 | Adding a row adds its pair at the end of the copy. |
| MainWindow.AppendApart | ViewModels/MainWindowViewModel.cs:185-197 | A row around a new entry keeps every row's entry its own. |
| MainWindow.NewRow | ViewModels/MainWindowViewModel.cs:185-188 | A fresh row around a fresh entry, with the given pair, scope, flag and handler. |
| MainWindow.NewRows | ViewModels/MainWindowViewModel.cs:86-90 | One fresh row per listed pair, in order, each with its own fresh entry, the list's flag, handler and scope. |
| MainWindow.MainWindowViewModel.constructor | ViewModels/MainWindowViewModel.cs:42-68 | Asks the store for elevation once; the machine scope is read-only exactly when not elevated; the session is loaded and no call was issued. |
| MainWindow.MainWindowViewModel.LoadVariables | ViewModels/MainWindowViewModel.cs:70-122 | Afterwards the invariant holds and the session is loaded: both lists sorted and showing the store, snapshots equal to the lists, nothing pending. |
| MainWindow.MainWindowViewModel.BuildRows | ViewModels/MainWindowViewModel.cs:77-100 | Builds fresh rows showing each scope sorted by name, with the right flags, handlers and scopes, and no shared entries. |
| MainWindow.MainWindowViewModel.ShowRows | ViewModels/MainWindowViewModel.cs:85-104 | Installs the rows, takes the snapshot through SaveOriginalState and clears the pending flag, without touching any entry. |
| MainWindow.MainWindowViewModel.ShownIsLoaded | ViewModels/MainWindowViewModel.cs:85-104 | Rows built from the sorted listings, once installed and snapshotted, form a valid loaded session. |
| MainWindow.MainWindowViewModel.ListScopes | ViewModels/MainWindowViewModel.cs:77-80 | Both listings are sorted, name each variable once, and show their scope exactly. |
| MainWindow.MainWindowViewModel.ListScope | ViewModels/MainWindowViewModel.cs:77-86 | A scope listed and ordered by name is sorted, names each variable once and shows the scope exactly. |
| MainWindow.MainWindowViewModel.SaveOriginalState | ViewModels/MainWindowViewModel.cs:125-146 | The snapshots become value copies of the two lists. |
| MainWindow.MainWindowViewModel.OnVariableChanged | ViewModels/MainWindowViewModel.cs:148-151 | Marks the session as edited. |
| MainWindow.MainWindowViewModel.SetSelectedTabIndex | ViewModels/MainWindowViewModel.cs:30-31 | The tab index takes the new value. |
| MainWindow.MainWindowViewModel.SetVariableName | ViewModels/MainWindowViewModel.cs:88-89 | Renaming a row changes only its entry's name, keeps the invariant, and sets the pending flag exactly when the name changed. |
| MainWindow.MainWindowViewModel.SetVariableValue | ViewModels/MainWindowViewModel.cs:88-89 | Editing a row's value changes only its entry's value, keeps the invariant, and sets the pending flag exactly when the value changed. |
| MainWindow.MainWindowViewModel.OnDeleteUserVariable | ViewModels/MainWindowViewModel.cs:153-157 | Always removes the row's first occurrence from the user list and marks the session edited. |
| MainWindow.MainWindowViewModel.OnDeleteSystemVariable | ViewModels/MainWindowViewModel.cs:159-166 | While the machine scope is read-only, changes neither the list nor the flag; otherwise removes the row and marks the session edited. |
| MainWindow.MainWindowViewModel.DeleteRow | ViewModels/EnvironmentVariableViewModel.cs:60 | A row's delete command runs its own list's handler, with that handler's effect. |
| MainWindow.MainWindowViewModel.AddVariable | ViewModels/MainWindowViewModel.cs:172-200 | Appends one fresh `NEW_VARIABLE` row with an empty value to the selected tab's list, leaves the other list alone, makes the row read-only exactly when it is a machine row of a read-only session, and marks the session edited. |
| MainWindow.MainWindowViewModel.SaveScope | ViewModels/MainWindowViewModel.cs:216-245 | The store receives exactly the sets and then the deletes for one scope, and every scope's map reflects them. |
| MainWindow.MainWindowViewModel.SaveEntries | ViewModels/MainWindowViewModel.cs:218-235 | The first loop issues one set per new or changed entry, in list order. |
| MainWindow.MainWindowViewModel.DeleteRemoved | ViewModels/MainWindowViewModel.cs:237-245 | The second loop issues one delete per vanished snapshot name, in snapshot order. |
| MainWindow.MainWindowViewModel.SaveEntry | ViewModels/MainWindowViewModel.cs:220-234 | One turn of the first loop: a set exactly when the name is new or the value differs. |
| MainWindow.MainWindowViewModel.DeleteIfGone | ViewModels/MainWindowViewModel.cs:240-244 | One turn of the second loop: a delete exactly when no row carries the name. |
| MainWindow.MainWindowViewModel.WriteChanges | ViewModels/MainWindowViewModel.cs:213-285 | The store receives the user calls, then the machine calls only when elevated. Without elevation the machine scope is untouched. A scope whose store still held the snapshot ends up holding exactly the edited pairs. |
| MainWindow.MainWindowViewModel.Save | ViewModels/MainWindowViewModel.cs:203-301 | The store receives exactly the calls for what changed since the snapshot, the machine scope only when elevated; then the session is reloaded, valid, and has nothing pending, on the same tab. |
| MainWindow.MainWindowViewModel.Cancel | ViewModels/MainWindowViewModel.cs:303-308 | Reloads: the session is valid, shows the store, and has nothing pending. |

## Left out

- Concurrency and the UI thread: `async`, `Task.Run`, `Dispatcher.InvokeAsync` and the `IsBusy` flag. Load, save and cancel are atomic steps, and the constructor's fire-and-forget load completes before it returns.
- Error dialogs, logging and exceptions. The store never fails, so the catch blocks of load and save are not modelled. The `ToDictionary` failure on a repeated snapshot name cannot happen: snapshots come from a listing of a map, and the invariant keeps their names distinct.
- The sort comparer. `OrderBy` uses the culture-sensitive default string comparer; here it is an arbitrary total relation on names, so nothing depends on a particular collation.
- `PropertyChanged` wiring. The session's subscription to each row is modelled as `SetVariableName`/`SetVariableValue` calling `OnVariableChanged` when the row reports a change; other notifications (`NotifyCanExecuteChanged`, the list-value flag announcement) only refresh the UI.
- The open-list-editor event, the dialog and the write-back of the edited value into the row (`MainWindow.xaml.cs` and `Views/ListEditorDialog.xaml.cs`), startup and dependency injection (`App.xaml.cs`, `Services/ServiceConfiguration.cs`) and `InverseBooleanConverter.cs`.
- The real store (`Services/EnvironmentVariableService.cs`, the Windows registry and `WindowsIdentity`). It is replaced by a map per scope. A listing comes back in no particular order, as the registry gives no order; the process scope exists but the editor never uses it.
- Models.EnvironmentVariable: the `Target` property has a setter in the source, but nothing sets it after the object initializer, so it is a constant here.
- Null strings. The list editor's `SelectedItem` is an `Option`. A null `EditText` is never produced (the change handler maps a null selection to the empty string), so the edit text is a plain string.
- ListEditor.ListEditorViewModel.RemoveItem: the source's third branch (`Items[0]` when the index is neither inside the list nor positive) cannot run, because an index at the end of a non-empty list is positive; it is an `assert false` here.
- MainWindow.Bindings: its contract gives only the length; the pair at each position is stated by `BindingsAt`.
- Text.Trim: its contract does not say the result is a contiguous middle slice of the input; `TrimStart` and `TrimEnd` state that each cut removes only white space.
- Text.IsWhiteSpace follows the `char.IsWhiteSpace` set of code points. Characters are Unicode scalar values, not UTF-16 code units, so surrogate pairs are not modelled.
- Gateway.ToMap: `ToDictionary` throws on a repeated name, and ToMap then keeps the last pair instead. Its value clause is stated for distinct names only; the session invariant keeps every snapshot's names distinct.
- The Windows store's own rules, as the .NET `Environment.SetEnvironmentVariable` applies them to the user and machine scopes, are not part of `EnvironmentStore`:
  - it matches names without regard to case; only `RegistryScope` models that, and only for ASCII letters;
  - setting a variable to the empty string deletes it, so a `NEW_VARIABLE` saved with its default empty value is never created;
  - an empty name, or a name containing `=`, makes the call throw.
  The commit properties (`SaveCommitsScope`, `WriteChanges`, `Save`) hold for the map store.
- Elevation: the store's answer is a parameter. The Windows role check behind it (`Services/EnvironmentVariableService.cs`, `WindowsIdentity`) is not part of this model.
- The `Name` and `Value` getters of a row read the wrapped entry; the model reads `vm.model.name` and `vm.model.value` directly.
- Duplicate names in a list are allowed, as in the source. With a repeated name, the last *changed* entry decides what the store ends with, not the last entry: an unchanged later duplicate issues no set (`DuplicateNameEarlierChangeWins`). The commit property (`SaveCommitsScope`, `Save`) is stated for lists without repeated names.
- Delete order. Deletes follow the snapshot order, because a `Dictionary` enumerates its keys in insertion order when nothing has been removed from it.

## Findings

| source | as written | input that shows it | evidently intended | confidence | as-written member | corrected member |
|---|---|---|---|---|---|---|
| ViewModels/MainWindowViewModel.cs:216-245 | The delete loop compares names case-sensitively (default `HashSet` comparer), while the Windows store ignores letter case | Rename user variable `Path` to `PATH`, keep its value, save: `Set("PATH", v)` then `Delete("Path")`, and the variable is gone | A name that still appears in the list, up to letter case, is never deleted | medium, not executed | RegistryScope.CaseOnlyRenameLosesVariable | RegistryScope.CorrectedSaveKeepsListed |

The corrected delete loop is `RegistryScope.RegistryDeleteCalls`. The session model (`MainWindow`) keeps the code as written, since it works against `EnvironmentStore`, a case-sensitive map. Against that store the as-written loop is correct.
