/**
 * The editing session (ViewModels/MainWindowViewModel.cs): two ordered lists
 * of rows, one per saved scope, a value copy of each list taken at load
 * time, the elevation flags fixed at construction, and the pending-changes
 * flag. Load and save are atomic steps against the store.
 */
module MainWindow {
  import opened Models
  import opened Gateway
  import opened Sorting
  import opened ChangeTracking
  import opened ViewModels
  import opened Collections

  /** The name/value pairs the rows show, in order. */
  function Bindings(vms: seq<EnvironmentVariableViewModel>): (r: seq<Binding>)
    reads set vm | vm in vms :: vm.model
    ensures |r| == |vms|
  {
    if vms == [] then []
    else [Binding(vms[0].model.name, vms[0].model.value)] + Bindings(vms[1..])
  }

  /** Row `i` shows the pair of its own entry. */
  lemma {:induction false} BindingsAt(vms: seq<EnvironmentVariableViewModel>, i: int)
    requires 0 <= i < |vms|
    ensures Bindings(vms)[i] == Binding(vms[i].model.name, vms[i].model.value)
  {
    if i > 0 {
      BindingsAt(vms[1..], i - 1);
    }
  }

  /** Two different rows never share an entry, so editing one row's entry
      leaves every other row as it was. */
  predicate EntriesApart(rows: seq<EnvironmentVariableViewModel>) {
    forall v, w :: v in rows && w in rows && v != w ==> v.model != w.model
  }

  lemma {:induction false} BindingsSnoc(rows: seq<EnvironmentVariableViewModel>, vm: EnvironmentVariableViewModel)
    ensures Bindings(rows + [vm]) == Bindings(rows) + [Binding(vm.model.name, vm.model.value)]
  {
    if rows != [] {
      assert (rows + [vm])[1..] == rows[1..] + [vm];
      BindingsSnoc(rows[1..], vm);
    }
  }

  /** Adding a row with an entry no listed row has keeps the entries apart. */
  lemma AppendApart(rows: seq<EnvironmentVariableViewModel>, others: seq<EnvironmentVariableViewModel>,
                    vm: EnvironmentVariableViewModel)
    requires EntriesApart(rows + others)
    requires forall w :: w in rows + others ==> w.model != vm.model
    ensures EntriesApart((rows + [vm]) + others) && EntriesApart(rows + (others + [vm]))
  {
    assert forall w :: w in (rows + [vm]) + others ==> w in rows + others || w == vm;
    assert forall w :: w in rows + (others + [vm]) ==> w in rows + others || w == vm;
  }

  /** A fresh entry holding the pair, in scope `t`, and a fresh row around it. */
  method NewRow(b: Binding, t: Target, isReadOnly: bool, onDelete: DeleteHandler)
    returns (vm: EnvironmentVariableViewModel)
    ensures fresh(vm) && fresh(vm.model)
    ensures vm.model.name == b.name && vm.model.value == b.value && vm.model.target == t
    ensures vm.isReadOnly == isReadOnly && vm.onDelete == onDelete
  {
    var entry := new EnvironmentVariable.Init(b.name, b.value, t);
    vm := new EnvironmentVariableViewModel(entry, isReadOnly, onDelete);
  }

  /** Wraps each pair in a fresh entry of scope `t` and a fresh row, in order. */
  method NewRows(bindings: seq<Binding>, t: Target, isReadOnly: bool, onDelete: DeleteHandler)
    returns (rows: seq<EnvironmentVariableViewModel>)
    ensures Bindings(rows) == bindings
    ensures EntriesApart(rows)
    ensures forall vm :: vm in rows ==> fresh(vm) && fresh(vm.model)
    ensures forall vm :: vm in rows ==>
      vm.isReadOnly == isReadOnly && vm.onDelete == onDelete && vm.model.target == t
  {
    rows := [];
    for i := 0 to |bindings|
      invariant Bindings(rows) == bindings[..i]
      invariant EntriesApart(rows)
      invariant forall vm :: vm in rows ==> fresh(vm) && fresh(vm.model)
      invariant forall vm :: vm in rows ==>
        vm.isReadOnly == isReadOnly && vm.onDelete == onDelete && vm.model.target == t
    {
      TakeSnoc(bindings, i);
      var vm := NewRow(bindings[i], t, isReadOnly, onDelete);
      BindingsSnoc(rows, vm);
      rows := rows + [vm];
    }
    assert bindings[..|bindings|] == bindings;
  }

  class MainWindowViewModel {
    const service: EnvironmentStore
    /** The comparer `OrderBy` uses on names. */
    const nameOrder: (string, string) -> bool
    /** Both flags are set once, by the constructor. */
    const isElevated: bool
    const isSystemReadOnly: bool
    var userVariables: seq<EnvironmentVariableViewModel>
    var systemVariables: seq<EnvironmentVariableViewModel>
    var selectedTabIndex: int
    var hasPendingChanges: bool
    /** The load-time copies of the two lists. */
    var originalUserVariables: seq<Binding>
    var originalSystemVariables: seq<Binding>

    /** The entries behind all rows. */
    ghost function Entries(): set<EnvironmentVariable>
      reads this
    {
      (set vm | vm in userVariables :: vm.model) + (set vm | vm in systemVariables :: vm.model)
    }

    /** What holds between any two steps of a session: the flags agree, user
        rows are editable, system rows are read-only exactly when the session
        is, every row is wired to its list's delete handler and carries its
        list's scope, no two rows share an entry, and each snapshot names
        every variable once (so building its dictionary cannot fail). */
    ghost predicate Valid()
      reads this
    {
      && isSystemReadOnly == !isElevated
      && Total(nameOrder)
      && (forall vm :: vm in userVariables ==>
            !vm.isReadOnly && vm.onDelete == UserHandler && vm.model.target == User)
      && (forall vm :: vm in systemVariables ==>
            vm.isReadOnly == isSystemReadOnly && vm.onDelete == SystemHandler && vm.model.target == Machine)
      && EntriesApart(userVariables + systemVariables)
      && DistinctNames(originalUserVariables)
      && DistinctNames(originalSystemVariables)
    }

    /** The state right after a load: each list is sorted by name and shows
        exactly its scope of the store, each snapshot equals its list, and
        nothing is pending. */
    ghost predicate Loaded()
      reads this, Entries(), service
    {
      && SortedByName(Bindings(userVariables), nameOrder)
      && SortedByName(Bindings(systemVariables), nameOrder)
      && DistinctNames(Bindings(userVariables))
      && DistinctNames(Bindings(systemVariables))
      && ToMap(Bindings(userVariables)) == service.user
      && ToMap(Bindings(systemVariables)) == service.machine
      && originalUserVariables == Bindings(userVariables)
      && originalSystemVariables == Bindings(systemVariables)
      && !hasPendingChanges
    }

    /** Asks the store once whether the process is elevated; the system
        scope is read-only exactly when it is not. Then loads. */
    constructor (service: EnvironmentStore, nameOrder: (string, string) -> bool)
      requires Total(nameOrder)
      ensures this.service == service && this.nameOrder == nameOrder
      ensures isElevated == service.elevated && isSystemReadOnly == !isElevated
      ensures selectedTabIndex == 0
      ensures Valid() && Loaded()
      ensures service.trace == old(service.trace)
    {
      this.service := service;
      this.nameOrder := nameOrder;
      var elevated := service.IsElevated();
      isElevated := elevated;
      isSystemReadOnly := !elevated;
      userVariables := [];
      systemVariables := [];
      selectedTabIndex := 0;
      hasPendingChanges := false;
      originalUserVariables := [];
      originalSystemVariables := [];
      new;
      LoadVariables();
    }

    /** Replaces both lists by fresh rows for the store's user and machine
        scopes, sorted by name, then snapshots them. */
    method LoadVariables()
      requires isSystemReadOnly == !isElevated && Total(nameOrder)
      modifies this`userVariables, this`systemVariables, this`hasPendingChanges
      modifies this`originalUserVariables, this`originalSystemVariables
      ensures Valid() && Loaded()
      ensures selectedTabIndex == old(selectedTabIndex)
      ensures forall vm :: vm in userVariables ==> fresh(vm) && fresh(vm.model)
      ensures forall vm :: vm in systemVariables ==> fresh(vm) && fresh(vm.model)
    {
      var userRows, systemRows, user, system := BuildRows();
      ShowRows(userRows, systemRows);
      ShownIsLoaded(userRows, systemRows, user, system);
    }

    /** Lists and orders both scopes and wraps them in fresh rows. */
    method BuildRows() returns (userRows: seq<EnvironmentVariableViewModel>, systemRows: seq<EnvironmentVariableViewModel>,
                                user: seq<Binding>, system: seq<Binding>)
      requires Total(nameOrder)
      ensures SortedByName(user, nameOrder) && DistinctNames(user) && ToMap(user) == service.user
      ensures SortedByName(system, nameOrder) && DistinctNames(system) && ToMap(system) == service.machine
      ensures Bindings(userRows) == user && Bindings(systemRows) == system
      ensures EntriesApart(userRows + systemRows)
      ensures forall vm :: vm in userRows ==>
        !vm.isReadOnly && vm.onDelete == UserHandler && vm.model.target == User
      ensures forall vm :: vm in systemRows ==>
        vm.isReadOnly == isSystemReadOnly && vm.onDelete == SystemHandler && vm.model.target == Machine
      ensures forall vm :: vm in userRows ==> fresh(vm) && fresh(vm.model)
      ensures forall vm :: vm in systemRows ==> fresh(vm) && fresh(vm.model)
    {
      user, system := ListScopes();
      userRows := NewRows(user, User, false, UserHandler);
      systemRows := NewRows(system, Machine, isSystemReadOnly, SystemHandler);
      assert Bindings(userRows) == user;
    }

    /** Installs the rows, takes the value copies of them (what
        SaveOriginalState does) and clears the flag. */
    method ShowRows(userRows: seq<EnvironmentVariableViewModel>, systemRows: seq<EnvironmentVariableViewModel>)
      modifies this`userVariables, this`systemVariables, this`hasPendingChanges
      modifies this`originalUserVariables, this`originalSystemVariables
      ensures userVariables == userRows && systemVariables == systemRows
      ensures Bindings(userRows) == old(Bindings(userRows)) && Bindings(systemRows) == old(Bindings(systemRows))
      ensures originalUserVariables == Bindings(userRows) && originalSystemVariables == Bindings(systemRows)
      ensures !hasPendingChanges
    {
      userVariables, systemVariables := userRows, systemRows;
      SaveOriginalState();
      hasPendingChanges := false;
    }

    /** Once installed, rows built from the sorted listings make a valid,
        freshly loaded session. */
    lemma ShownIsLoaded(userRows: seq<EnvironmentVariableViewModel>, systemRows: seq<EnvironmentVariableViewModel>,
                        user: seq<Binding>, system: seq<Binding>)
      requires isSystemReadOnly == !isElevated && Total(nameOrder)
      requires forall vm :: vm in userRows ==>
        !vm.isReadOnly && vm.onDelete == UserHandler && vm.model.target == User
      requires forall vm :: vm in systemRows ==>
        vm.isReadOnly == isSystemReadOnly && vm.onDelete == SystemHandler && vm.model.target == Machine
      requires EntriesApart(userRows + systemRows)
      requires userVariables == userRows && systemVariables == systemRows
      requires Bindings(userRows) == user && Bindings(systemRows) == system
      requires originalUserVariables == user && originalSystemVariables == system
      requires SortedByName(user, nameOrder) && DistinctNames(user) && ToMap(user) == service.user
      requires SortedByName(system, nameOrder) && DistinctNames(system) && ToMap(system) == service.machine
      requires !hasPendingChanges
      ensures Valid() && Loaded()
    {
    }

    /** The user scope, then the machine scope, each as the list shows it. */
    method ListScopes() returns (user: seq<Binding>, system: seq<Binding>)
      requires Total(nameOrder)
      ensures SortedByName(user, nameOrder) && DistinctNames(user) && ToMap(user) == service.user
      ensures SortedByName(system, nameOrder) && DistinctNames(system) && ToMap(system) == service.machine
    {
      user := ListScope(User);
      system := ListScope(Machine);
    }

    /** One scope as the list shows it: listed by the store, then ordered
        by name. */
    method ListScope(t: Target) returns (bs: seq<Binding>)
      requires Total(nameOrder)
      ensures SortedByName(bs, nameOrder) && DistinctNames(bs) && ToMap(bs) == service.Vars(t)
    {
      var entries := service.GetEnvironmentVariables(t);
      bs := SortByName(entries, nameOrder);
      SortKeepsBindings(entries, nameOrder);
    }

    /** Takes the value copies of both lists. */
    method SaveOriginalState()
      modifies this`originalUserVariables, this`originalSystemVariables
      ensures originalUserVariables == Bindings(userVariables)
      ensures originalSystemVariables == Bindings(systemVariables)
    {
      originalUserVariables := Bindings(userVariables);
      originalSystemVariables := Bindings(systemVariables);
    }

    /** Any change notification from a row marks the session as edited. */
    method OnVariableChanged()
      modifies this`hasPendingChanges
      ensures hasPendingChanges
    {
      hasPendingChanges := true;
    }

    method SetSelectedTabIndex(index: int)
      modifies this`selectedTabIndex
      ensures selectedTabIndex == index
    {
      selectedTabIndex := index;
    }

    /** Renaming a row through its `Name` setter: the row's pair changes and
        nothing else does; the session is marked edited exactly when the
        name actually changed. Read-only rows are not protected here. */
    method SetVariableName(vm: EnvironmentVariableViewModel, name: string)
      requires Valid() && vm in userVariables + systemVariables
      modifies vm.model, this`hasPendingChanges
      ensures Valid()
      ensures hasPendingChanges == (old(hasPendingChanges) || old(vm.model.name) != name)
      ensures vm.model.name == name && vm.model.value == old(vm.model.value)
      ensures forall w :: w in userVariables + systemVariables && w != vm ==> unchanged(w.model)
    {
      var changed := vm.SetName(name);
      if changed {
        OnVariableChanged();
      }
    }

    /** Editing a row's value through its `Value` setter, with the same
        write-through and the same change test as renaming. */
    method SetVariableValue(vm: EnvironmentVariableViewModel, value: string)
      requires Valid() && vm in userVariables + systemVariables
      modifies vm.model, this`hasPendingChanges
      ensures Valid()
      ensures hasPendingChanges == (old(hasPendingChanges) || old(vm.model.value) != value)
      ensures vm.model.value == value && vm.model.name == old(vm.model.name)
      ensures forall w :: w in userVariables + systemVariables && w != vm ==> unchanged(w.model)
    {
      var changed := vm.SetValue(value);
      if changed {
        OnVariableChanged();
      }
    }

    /** The user list's delete handler: always removes and marks edited. */
    method OnDeleteUserVariable(vm: EnvironmentVariableViewModel)
      requires Valid()
      modifies this`userVariables, this`hasPendingChanges
      ensures Valid()
      ensures userVariables == RemoveFirst(old(userVariables), vm)
      ensures hasPendingChanges
    {
      userVariables := RemoveFirst(userVariables, vm);
      OnVariableChanged();
    }

    /** The system list's delete handler: does nothing at all while the
        system scope is read-only. */
    method OnDeleteSystemVariable(vm: EnvironmentVariableViewModel)
      requires Valid()
      modifies this`systemVariables, this`hasPendingChanges
      ensures Valid()
      ensures isSystemReadOnly ==> systemVariables == old(systemVariables) && hasPendingChanges == old(hasPendingChanges)
      ensures !isSystemReadOnly ==> systemVariables == RemoveFirst(old(systemVariables), vm) && hasPendingChanges
    {
      if !isSystemReadOnly {
        systemVariables := RemoveFirst(systemVariables, vm);
        OnVariableChanged();
      }
    }

    /** A row's delete command: runs the handler the row was created with. */
    method DeleteRow(vm: EnvironmentVariableViewModel)
      requires Valid() && vm in userVariables + systemVariables
      modifies this`userVariables, this`systemVariables, this`hasPendingChanges
      ensures Valid()
      ensures vm in old(userVariables) ==>
        userVariables == RemoveFirst(old(userVariables), vm) && systemVariables == old(systemVariables) && hasPendingChanges
      ensures vm in old(systemVariables) && isSystemReadOnly ==>
        userVariables == old(userVariables) && systemVariables == old(systemVariables)
        && hasPendingChanges == old(hasPendingChanges)
      ensures vm in old(systemVariables) && !isSystemReadOnly ==>
        userVariables == old(userVariables) && systemVariables == RemoveFirst(old(systemVariables), vm) && hasPendingChanges
    {
      match vm.onDelete {
        case UserHandler => OnDeleteUserVariable(vm);
        case SystemHandler => OnDeleteSystemVariable(vm);
        case NoHandler =>
      }
    }

    /** Appends a "NEW_VARIABLE" row with an empty value to the list of the
        selected tab (the first tab is the user scope, any other the machine
        scope); the row is read-only exactly when it is a machine row of a
        read-only session. */
    method AddVariable()
      requires Valid()
      modifies this`userVariables, this`systemVariables, this`hasPendingChanges
      ensures Valid()
      ensures hasPendingChanges
      ensures selectedTabIndex == 0 ==> |userVariables| == |old(userVariables)| + 1 && systemVariables == old(systemVariables)
      ensures selectedTabIndex != 0 ==> |systemVariables| == |old(systemVariables)| + 1 && userVariables == old(userVariables)
      ensures var added := if selectedTabIndex == 0 then userVariables[|userVariables| - 1]
                           else systemVariables[|systemVariables| - 1];
        && (selectedTabIndex == 0 ==> userVariables == old(userVariables) + [added])
        && (selectedTabIndex != 0 ==> systemVariables == old(systemVariables) + [added])
        && fresh(added) && fresh(added.model)
        && added.model.name == "NEW_VARIABLE" && added.model.value == ""
        && added.model.target == (if selectedTabIndex == 0 then User else Machine)
        && added.isReadOnly == (selectedTabIndex != 0 && isSystemReadOnly)
        && added.onDelete == (if selectedTabIndex == 0 then UserHandler else SystemHandler)
    {
      var target := if selectedTabIndex == 0 then User else Machine;
      var isReadOnly := target == Machine && isSystemReadOnly;
      var vm := NewRow(Binding("NEW_VARIABLE", ""), target, isReadOnly,
        if target == User then UserHandler else SystemHandler);
      assert forall w :: w in userVariables + systemVariables ==> w.model != vm.model;
      AppendApart(userVariables, systemVariables, vm);
      if target == User {
        userVariables := userVariables + [vm];
      } else {
        systemVariables := systemVariables + [vm];
      }
      OnVariableChanged();
    }

    /** Issues the calls for one scope: a set for each row whose name is new
        or whose value differs from the snapshot, in row order, then a delete
        for each snapshot name no row carries, in snapshot order. */
    method SaveScope(t: Target, current: seq<Binding>, original: seq<Binding>)
      modifies service
      ensures service.trace == old(service.trace) + ScopeCalls(t, current, original)
      ensures forall u :: service.Vars(u) == Apply(old(service.Vars(u)), u, ScopeCalls(t, current, original))
    {
      var originalVars := ToMap(original);
      var currentNames := Names(current);
      SaveEntries(t, current, originalVars);
      ghost var sets := SetCalls(t, current, originalVars);
      DeleteRemoved(t, original, currentNames);
      forall u ensures service.Vars(u) == Apply(old(service.Vars(u)), u, ScopeCalls(t, current, original)) {
        ApplyConcat(old(service.Vars(u)), u, sets, DeleteCalls(t, original, currentNames));
      }
    }

    /** The first loop: a set for each entry whose name is new or whose
        value differs, in order. */
    method SaveEntries(t: Target, current: seq<Binding>, originalVars: map<string, string>)
      modifies service
      ensures service.trace == old(service.trace) + SetCalls(t, current, originalVars)
      ensures forall u :: service.Vars(u) == Apply(old(service.Vars(u)), u, SetCalls(t, current, originalVars))
    {
      for k := 0 to |current|
        invariant service.trace == old(service.trace) + SetCalls(t, current[..k], originalVars)
        invariant forall u :: service.Vars(u) == Apply(old(service.Vars(u)), u, SetCalls(t, current[..k], originalVars))
      {
        TakeSnoc(current, k);
        SetCallsConcat(t, current[..k], [current[k]], originalVars);
        SaveEntry(t, current[k], originalVars);
        forall u ensures service.Vars(u) == Apply(old(service.Vars(u)), u, SetCalls(t, current[..k + 1], originalVars)) {
          ApplyConcat(old(service.Vars(u)), u, SetCalls(t, current[..k], originalVars), SetCalls(t, [current[k]], originalVars));
        }
      }
      assert current[..|current|] == current;
    }

    /** The second loop: a delete for each snapshot name no row carries, in
        snapshot order. */
    method DeleteRemoved(t: Target, original: seq<Binding>, currentNames: set<string>)
      modifies service
      ensures service.trace == old(service.trace) + DeleteCalls(t, original, currentNames)
      ensures forall u :: service.Vars(u) == Apply(old(service.Vars(u)), u, DeleteCalls(t, original, currentNames))
    {
      for k := 0 to |original|
        invariant service.trace == old(service.trace) + DeleteCalls(t, original[..k], currentNames)
        invariant forall u :: service.Vars(u) == Apply(old(service.Vars(u)), u, DeleteCalls(t, original[..k], currentNames))
      {
        TakeSnoc(original, k);
        DeleteCallsConcat(t, original[..k], [original[k]], currentNames);
        DeleteIfGone(t, original[k], currentNames);
        forall u ensures service.Vars(u) == Apply(old(service.Vars(u)), u, DeleteCalls(t, original[..k + 1], currentNames)) {
          ApplyConcat(old(service.Vars(u)), u, DeleteCalls(t, original[..k], currentNames), DeleteCalls(t, [original[k]], currentNames));
        }
      }
      assert original[..|original|] == original;
    }

    /** One turn of the first loop: a set when the name is new or the value
        differs from the snapshot's. */
    method SaveEntry(t: Target, b: Binding, originalVars: map<string, string>)
      modifies service
      ensures service.trace == old(service.trace) + SetCalls(t, [b], originalVars)
      ensures forall u :: service.Vars(u) == Apply(old(service.Vars(u)), u, SetCalls(t, [b], originalVars))
    {
      assert [b][1..] == [];
      if b.name in originalVars {
        if originalVars[b.name] != b.value {
          service.SetEnvironmentVariable(b.name, b.value, t);
        }
      } else {
        service.SetEnvironmentVariable(b.name, b.value, t);
      }
    }

    /** One turn of the second loop: a delete when no row carries the name. */
    method DeleteIfGone(t: Target, b: Binding, currentNames: set<string>)
      modifies service
      ensures service.trace == old(service.trace) + DeleteCalls(t, [b], currentNames)
      ensures forall u :: service.Vars(u) == Apply(old(service.Vars(u)), u, DeleteCalls(t, [b], currentNames))
    {
      assert [b][1..] == [];
      if b.name !in currentNames {
        service.DeleteEnvironmentVariable(b.name, t);
      }
    }

    /** The work `Save` hands to the background task: the user scope, then
        the machine scope only when elevated. When the store still held the
        snapshot and no name is used twice, the scope ends up holding exactly
        the edited pairs; without elevation the machine scope is untouched. */
    method WriteChanges(user: seq<Binding>, system: seq<Binding>,
                        originalUser: seq<Binding>, originalSystem: seq<Binding>)
      modifies service
      ensures var calls := SaveCalls(isElevated, user, system, originalUser, originalSystem);
        && service.trace == old(service.trace) + calls
        && forall u :: service.Vars(u) == Apply(old(service.Vars(u)), u, calls)
      ensures !isElevated ==> service.machine == old(service.machine)
      ensures old(service.user) == ToMap(originalUser) && DistinctNames(user) ==>
        service.user == ToMap(user)
      ensures isElevated && old(service.machine) == ToMap(originalSystem) && DistinctNames(system) ==>
        service.machine == ToMap(system)
    {
      ghost var userCalls := ScopeCalls(User, user, originalUser);
      ghost var machineCalls := ScopeCalls(Machine, system, originalSystem);
      ghost var calls := SaveCalls(isElevated, user, system, originalUser, originalSystem);
      ScopeCallsTarget(User, user, originalUser);
      ScopeCallsTarget(Machine, system, originalSystem);
      SaveScope(User, user, originalUser);
      assert service.Vars(User) == Apply(old(service.Vars(User)), User, userCalls);
      assert service.Vars(Machine) == Apply(old(service.Vars(Machine)), Machine, userCalls);
      if isElevated {
        label UserSaved:
        SaveScope(Machine, system, originalSystem);
        assert calls == userCalls + machineCalls;
        assert service.trace == old(service.trace) + calls by {
          assert service.trace == (old(service.trace) + userCalls) + machineCalls;
        }
        forall u ensures service.Vars(u) == Apply(old(service.Vars(u)), u, calls) {
          ApplyConcat(old(service.Vars(u)), u, userCalls, machineCalls);
        }
        assert service.Vars(User) == Apply(old@UserSaved(service.Vars(User)), User, machineCalls);
        assert service.Vars(Machine) == Apply(old@UserSaved(service.Vars(Machine)), Machine, machineCalls);
        ApplyOtherScope(old@UserSaved(service.user), User, machineCalls);
        ApplyOtherScope(old(service.machine), Machine, userCalls);
      } else {
        assert calls == userCalls by {
          assert userCalls + [] == userCalls;
        }
        assert service.trace == old(service.trace) + calls;
        ApplyOtherScope(old(service.machine), Machine, userCalls);
      }
      if old(service.user) == ToMap(originalUser) && DistinctNames(user) {
        SaveCommitsScope(User, user, originalUser);
      }
      if isElevated && old(service.machine) == ToMap(originalSystem) && DistinctNames(system) {
        SaveCommitsScope(Machine, system, originalSystem);
      }
    }

    /** Saves the edits, then reloads: the store received exactly the calls
        for what changed since the snapshot, and the session shows the store
        afresh. */
    method Save()
      requires Valid()
      modifies this, service
      ensures var calls := SaveCalls(isElevated, old(Bindings(userVariables)), old(Bindings(systemVariables)),
                                     old(originalUserVariables), old(originalSystemVariables));
        && service.trace == old(service.trace) + calls
        && forall u :: service.Vars(u) == Apply(old(service.Vars(u)), u, calls)
      ensures Valid() && Loaded()
      ensures !isElevated ==> service.machine == old(service.machine)
      ensures old(service.user) == ToMap(old(originalUserVariables)) && DistinctNames(old(Bindings(userVariables))) ==>
        service.user == ToMap(old(Bindings(userVariables)))
      ensures isElevated && old(service.machine) == ToMap(old(originalSystemVariables))
              && DistinctNames(old(Bindings(systemVariables))) ==>
        service.machine == ToMap(old(Bindings(systemVariables)))
      ensures selectedTabIndex == old(selectedTabIndex)
    {
      var user := Bindings(userVariables);
      var system := Bindings(systemVariables);
      WriteChanges(user, system, originalUserVariables, originalSystemVariables);
      LoadVariables();
      hasPendingChanges := false;
    }

    /** Throws the edits away by reloading from the store. */
    method Cancel()
      requires Valid()
      modifies this
      ensures Valid() && Loaded()
      ensures selectedTabIndex == old(selectedTabIndex)
    {
      LoadVariables();
      hasPendingChanges := false;
    }
  }
}
