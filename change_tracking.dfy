/**
 * What `Save` sends to the store (ViewModels/MainWindowViewModel.cs), as
 * functions of the working lists and the snapshots taken at load time.
 * For one scope: a set for every current entry whose name is new or whose
 * value differs from the snapshot, in list order; then a delete for every
 * snapshot name that no current entry carries, in snapshot order. The
 * machine scope is saved only when the session is elevated, after the user
 * scope.
 */
module ChangeTracking {
  import opened Models
  import opened Gateway
  import opened Collections

  /** The test `Save` applies to one current entry. */
  predicate NeedsSet(b: Binding, original: map<string, string>) {
    b.name !in original || original[b.name] != b.value
  }

  /** The sets issued by the loop over the current entries. */
  function SetCalls(t: Target, current: seq<Binding>, original: map<string, string>): (r: seq<Call>)
  {
    if current == [] then []
    else
      (if NeedsSet(current[0], original) then [Set(current[0].name, current[0].value, t)] else [])
      + SetCalls(t, current[1..], original)
  }

  /** The deletes issued by the loop over the snapshot's names. */
  function DeleteCalls(t: Target, original: seq<Binding>, currentNames: set<string>): (r: seq<Call>)
  {
    if original == [] then []
    else
      (if original[0].name !in currentNames then [Delete(original[0].name, t)] else [])
      + DeleteCalls(t, original[1..], currentNames)
  }

  /** Everything `Save` issues for one scope. */
  function ScopeCalls(t: Target, current: seq<Binding>, original: seq<Binding>): (r: seq<Call>)
  {
    SetCalls(t, current, ToMap(original)) + DeleteCalls(t, original, Names(current))
  }

  /** Everything `Save` issues: the user scope, then the machine scope when elevated. */
  function SaveCalls(elevated: bool, user: seq<Binding>, system: seq<Binding>,
                     originalUser: seq<Binding>, originalSystem: seq<Binding>): (r: seq<Call>)
  {
    ScopeCalls(User, user, originalUser)
    + (if elevated then ScopeCalls(Machine, system, originalSystem) else [])
  }

  /** The current entries a set is issued for, in order. */
  function Changed(current: seq<Binding>, original: map<string, string>): (r: seq<Binding>)
    ensures forall b :: b in r <==> b in current && NeedsSet(b, original)
    ensures Names(r) <= Names(current)
    ensures DistinctNames(current) ==> DistinctNames(r)
  {
    if current == [] then []
    else
      var rest := Changed(current[1..], original);
      assert current == [current[0]] + current[1..];
      if NeedsSet(current[0], original) then
        assert ([current[0]] + rest)[1..] == rest;
        [current[0]] + rest
      else rest
  }

  lemma {:induction false} SetCallsConcat(t: Target, xs: seq<Binding>, ys: seq<Binding>, m: map<string, string>)
    ensures SetCalls(t, xs + ys, m) == SetCalls(t, xs, m) + SetCalls(t, ys, m)
  {
    if xs == [] {
      assert xs + ys == ys;
    } else {
      var head := if NeedsSet(xs[0], m) then [Set(xs[0].name, xs[0].value, t)] else [];
      assert (xs + ys)[0] == xs[0] && (xs + ys)[1..] == xs[1..] + ys;
      calc {
        SetCalls(t, xs + ys, m);
        head + SetCalls(t, xs[1..] + ys, m);
        { SetCallsConcat(t, xs[1..], ys, m); }
        head + (SetCalls(t, xs[1..], m) + SetCalls(t, ys, m));
        (head + SetCalls(t, xs[1..], m)) + SetCalls(t, ys, m);
      }
    }
  }

  lemma {:induction false} DeleteCallsConcat(t: Target, xs: seq<Binding>, ys: seq<Binding>, names: set<string>)
    ensures DeleteCalls(t, xs + ys, names) == DeleteCalls(t, xs, names) + DeleteCalls(t, ys, names)
  {
    if xs == [] {
      assert xs + ys == ys;
    } else {
      var head := if xs[0].name !in names then [Delete(xs[0].name, t)] else [];
      assert (xs + ys)[0] == xs[0] && (xs + ys)[1..] == xs[1..] + ys;
      calc {
        DeleteCalls(t, xs + ys, names);
        head + DeleteCalls(t, xs[1..] + ys, names);
        { DeleteCallsConcat(t, xs[1..], ys, names); }
        head + (DeleteCalls(t, xs[1..], names) + DeleteCalls(t, ys, names));
        (head + DeleteCalls(t, xs[1..], names)) + DeleteCalls(t, ys, names);
      }
    }
  }

  /** A set is issued for exactly the current entries that are new or changed. */
  lemma {:induction false} SetCallsExactly(t: Target, current: seq<Binding>, m: map<string, string>)
    ensures forall c :: c in SetCalls(t, current, m) <==>
      c.Set? && c.target == t && Binding(c.name, c.value) in current && NeedsSet(Binding(c.name, c.value), m)
  {
    if current != [] {
      SetCallsExactly(t, current[1..], m);
      assert current == [current[0]] + current[1..];
    }
  }

  /** A delete is issued for exactly the snapshot names no current entry carries. */
  lemma {:induction false} DeleteCallsExactly(t: Target, original: seq<Binding>, names: set<string>)
    ensures forall c :: c in DeleteCalls(t, original, names) <==>
      c.Delete? && c.target == t && c.name in Names(original) && c.name !in names
  {
    if original != [] {
      DeleteCallsExactly(t, original[1..], names);
    }
  }

  /** How often a given set is issued: once per current entry carrying that
      name and value, provided it is new or changed. */
  lemma {:induction false} SetCount(t: Target, current: seq<Binding>, m: map<string, string>, b: Binding)
    ensures multiset(SetCalls(t, current, m))[Set(b.name, b.value, t)]
      == if NeedsSet(b, m) then multiset(current)[b] else 0
  {
    if current != [] {
      var tail := SetCalls(t, current[1..], m);
      assert multiset(current) == multiset{current[0]} + multiset(current[1..]) by {
        assert current == [current[0]] + current[1..];
      }
      if NeedsSet(current[0], m) {
        assert SetCalls(t, current, m) == [Set(current[0].name, current[0].value, t)] + tail;
      } else {
        assert SetCalls(t, current, m) == tail;
      }
      SetCount(t, current[1..], m, b);
    }
  }

  /** Every call for a scope is addressed to that scope. */
  lemma ScopeCallsTarget(t: Target, current: seq<Binding>, original: seq<Binding>)
    ensures forall i :: 0 <= i < |ScopeCalls(t, current, original)| ==> ScopeCalls(t, current, original)[i].target == t
  {
    var calls := ScopeCalls(t, current, original);
    SetCallsExactly(t, current, ToMap(original));
    DeleteCallsExactly(t, original, Names(current));
    forall i | 0 <= i < |calls| ensures calls[i].target == t {
      assert calls[i] in calls;
    }
  }

  /** Within a scope no name is both set and deleted. */
  lemma ScopeCallsDisjoint(t: Target, current: seq<Binding>, original: seq<Binding>)
    ensures forall c, d ::
      (c in ScopeCalls(t, current, original) && d in ScopeCalls(t, current, original) && c.Set? && d.Delete?)
      ==> c.name != d.name
  {
    SetCallsExactly(t, current, ToMap(original));
    DeleteCallsExactly(t, original, Names(current));
    forall c | c in SetCalls(t, current, ToMap(original)) ensures c.name in Names(current) {
      var i :| 0 <= i < |current| && current[i] == Binding(c.name, c.value);
      NamesAt(current, c.name);
    }
  }

  /** A session whose lists equal their snapshots issues no call at all. */
  lemma UnchangedScopeIsSilent(t: Target, original: seq<Binding>)
    requires DistinctNames(original)
    ensures ScopeCalls(t, original, original) == []
  {
    NoSetsForUnchanged(t, original, original);
    NoDeletesForKept(t, original, Names(original));
  }

  lemma {:induction false} NoSetsForUnchanged(t: Target, current: seq<Binding>, original: seq<Binding>)
    requires DistinctNames(original)
    requires forall b :: b in current ==> b in original
    ensures SetCalls(t, current, ToMap(original)) == []
  {
    if current != [] {
      assert forall b :: b in current[1..] ==> b in current;
      NoSetsForUnchanged(t, current[1..], original);
    }
  }

  lemma {:induction false} NoDeletesForKept(t: Target, original: seq<Binding>, names: set<string>)
    requires Names(original) <= names
    ensures DeleteCalls(t, original, names) == []
  {
    if original != [] {
      NoDeletesForKept(t, original[1..], names);
    }
  }

  /** Cutting a sequence with distinct names around position `i`. */
  lemma Around(original: seq<Binding>, i: int)
    requires DistinctNames(original)
    requires 0 <= i < |original|
    ensures original == original[..i] + [original[i]] + original[i + 1..]
    ensures Names(original) == Names(original[..i]) + {original[i].name} + Names(original[i + 1..])
    ensures original[i].name !in Names(original[..i]) + Names(original[i + 1..])
  {
    Cut(original, i);
    Apart(original[..i], original[i], original[i + 1..]);
  }

  /** The names of a sequence with distinct names, cut around one entry. */
  lemma Apart(pre: seq<Binding>, o: Binding, post: seq<Binding>)
    requires DistinctNames(pre + [o] + post)
    ensures Names(pre + [o] + post) == Names(pre) + {o.name} + Names(post)
    ensures o.name !in Names(pre) + Names(post)
  {
    var left := pre + [o];
    assert Names([o]) == {o.name} by {
      assert [o][1..] == [];
    }
    assert Names(left) == Names(pre) + {o.name} by {
      NamesConcat(pre, [o]);
    }
    assert Names(left + post) == Names(left) + Names(post) by {
      NamesConcat(left, post);
    }
    assert o.name !in Names(post) && DistinctNames(left) by {
      DistinctConcat(left, post);
    }
    assert o.name !in Names(pre) by {
      DistinctConcat(pre, [o]);
    }
  }

  lemma {:induction false} SetCallsOfReplaced(t: Target, original: seq<Binding>, i: int, b: Binding)
    requires DistinctNames(original)
    requires 0 <= i < |original|
    requires b.name == original[i].name || b.name !in Names(original)
    ensures SetCalls(t, original[i := b], ToMap(original))
      == if b == original[i] then [] else [Set(b.name, b.value, t)]
  {
    var pre, o, post := original[..i], original[i], original[i + 1..];
    var m := ToMap(original);
    Around(original, i);
    CutUpdate(original, i, b);
    SetCallsConcat(t, pre + [b], post, m);
    SetCallsConcat(t, pre, [b], m);
    assert o in original;
    assert forall x :: x in pre ==> x in original;
    assert forall x :: x in post ==> x in original;
    NoSetsForUnchanged(t, pre, original);
    NoSetsForUnchanged(t, post, original);
  }

  lemma {:induction false} DeleteCallsOfReplaced(t: Target, original: seq<Binding>, i: int, names: set<string>)
    requires DistinctNames(original)
    requires 0 <= i < |original|
    requires Names(original[..i]) + Names(original[i + 1..]) <= names
    ensures DeleteCalls(t, original, names)
      == if original[i].name in names then [] else [Delete(original[i].name, t)]
  {
    var pre, o, post := original[..i], original[i], original[i + 1..];
    Around(original, i);
    DeleteCallsConcat(t, pre + [o], post, names);
    DeleteCallsConcat(t, pre, [o], names);
    NoDeletesForKept(t, pre, names);
    NoDeletesForKept(t, post, names);
  }

  /** Replacing one entry (a rename, a new value or both) yields at most one
      set, for the new binding, and one delete, for the old name. */
  lemma ReplaceOneEntry(t: Target, original: seq<Binding>, i: int, b: Binding)
    requires DistinctNames(original)
    requires 0 <= i < |original|
    requires b.name == original[i].name || b.name !in Names(original)
    ensures ScopeCalls(t, original[i := b], original)
      == (if b == original[i] then [] else [Set(b.name, b.value, t)])
       + (if b.name == original[i].name then [] else [Delete(original[i].name, t)])
  {
    var pre, post := original[..i], original[i + 1..];
    Around(original, i);
    CutUpdate(original, i, b);
    NamesConcat(pre + [b], post);
    NamesConcat(pre, [b]);
    assert Names([b]) == {b.name};
    SetCallsOfReplaced(t, original, i, b);
    DeleteCallsOfReplaced(t, original, i, Names(original[i := b]));
  }

  /** A new entry under a fresh name yields exactly one set and nothing else. */
  lemma AppendOneEntry(t: Target, original: seq<Binding>, b: Binding)
    requires DistinctNames(original)
    requires b.name !in Names(original)
    ensures ScopeCalls(t, original + [b], original) == [Set(b.name, b.value, t)]
  {
    var m := ToMap(original);
    SetCallsConcat(t, original, [b], m);
    NoSetsForUnchanged(t, original, original);
    NamesConcat(original, [b]);
    NoDeletesForKept(t, original, Names(original + [b]));
  }

  /** Removing one entry yields exactly one delete, of its name. */
  lemma RemoveOneEntry(t: Target, original: seq<Binding>, i: int)
    requires DistinctNames(original)
    requires 0 <= i < |original|
    ensures ScopeCalls(t, original[..i] + original[i + 1..], original) == [Delete(original[i].name, t)]
  {
    var pre, post := original[..i], original[i + 1..];
    Around(original, i);
    var current := pre + post;
    NamesConcat(pre, post);
    NoSetsForUnchanged(t, current, original);
    DeleteCallsOfReplaced(t, original, i, Names(current));
  }

  /** Applying the sets puts every changed entry's value over the store. */
  lemma {:induction false} ApplySets(m0: map<string, string>, t: Target, current: seq<Binding>, m: map<string, string>)
    ensures Apply(m0, t, SetCalls(t, current, m)) == m0 + ToMap(Changed(current, m))
    decreases |current|
  {
    if current != [] {
      var b := current[0];
      var tail := SetCalls(t, current[1..], m);
      var rest := Changed(current[1..], m);
      if NeedsSet(b, m) {
        var c := Set(b.name, b.value, t);
        assert SetCalls(t, current, m) == [c] + tail;
        assert ([c] + tail)[0] == c && ([c] + tail)[1..] == tail;
        assert Apply(m0, t, [c] + tail) == Apply(m0[b.name := b.value], t, tail);
        ApplySets(m0[b.name := b.value], t, current[1..], m);
        assert Changed(current, m) == [b] + rest;
        assert ([b] + rest)[1..] == rest;
        assert ToMap([b] + rest) == map[b.name := b.value] + ToMap(rest);
        UpdateThenUnion(m0, b.name, b.value, ToMap(rest));
      } else {
        assert SetCalls(t, current, m) == tail;
        ApplySets(m0, t, current[1..], m);
      }
    }
  }

  lemma UpdateThenUnion(m0: map<string, string>, k: string, v: string, x: map<string, string>)
    ensures m0[k := v] + x == m0 + (map[k := v] + x)
  {
  }

  /** Applying the deletes removes the vanished names from the store. */
  lemma {:induction false} ApplyDeletes(m0: map<string, string>, t: Target, original: seq<Binding>, names: set<string>)
    ensures Apply(m0, t, DeleteCalls(t, original, names)) == m0 - (Names(original) - names)
    decreases |original|
  {
    if original != [] {
      var b := original[0];
      if b.name !in names {
        var calls := DeleteCalls(t, original, names);
        assert calls[0] == Delete(b.name, t) && calls[1..] == DeleteCalls(t, original[1..], names);
        ApplyDeletes(m0 - {b.name}, t, original[1..], names);
        assert (m0 - {b.name}) - (Names(original[1..]) - names) == m0 - (Names(original) - names);
      } else {
        assert DeleteCalls(t, original, names) == DeleteCalls(t, original[1..], names);
        ApplyDeletes(m0, t, original[1..], names);
        assert Names(original) - names == Names(original[1..]) - names;
      }
    }
  }

  /** After the sets, a current name holds its current value. */
  lemma CommittedValue(current: seq<Binding>, m: map<string, string>, x: string)
    requires DistinctNames(current) && x in Names(current)
    ensures x in m + ToMap(Changed(current, m))
    ensures (m + ToMap(Changed(current, m)))[x] == ToMap(current)[x]
  {
    var changed := Changed(current, m);
    NamesAt(current, x);
    var i :| 0 <= i < |current| && current[i].name == x;
    var b := current[i];
    assert b in current;
    if NeedsSet(b, m) {
      assert b in changed;
    } else if x in Names(changed) {
      NamesAt(changed, x);
      var j :| 0 <= j < |changed| && changed[j].name == x;
      DistinctUnique(current, b, changed[j]);
    }
  }

  /** When the store still holds the snapshot, saving a scope whose entries
      have distinct names leaves the store holding exactly those entries. */
  lemma SaveCommitsScope(t: Target, current: seq<Binding>, original: seq<Binding>)
    requires DistinctNames(current)
    ensures Apply(ToMap(original), t, ScopeCalls(t, current, original)) == ToMap(current)
  {
    var m := ToMap(original);
    var changed := Changed(current, m);
    var names := Names(current);
    ApplyConcat(m, t, SetCalls(t, current, m), DeleteCalls(t, original, names));
    ApplySets(m, t, current, m);
    ApplyDeletes(m + ToMap(changed), t, original, names);
    var r := (m + ToMap(changed)) - (Names(original) - names);
    forall x | x in names ensures x in r && r[x] == ToMap(current)[x] {
      CommittedValue(current, m, x);
    }
    assert r.Keys <= names;
  }

  /** A name that no set or delete mentions keeps whatever the store holds for
      it, including values written by someone else since the load. */
  lemma SaveLeavesUntouched(m0: map<string, string>, t: Target, current: seq<Binding>, original: seq<Binding>, k: string)
    requires forall b :: b in current && b.name == k ==> !NeedsSet(b, ToMap(original))
    requires k in Names(original) ==> k in Names(current)
    ensures k in Apply(m0, t, ScopeCalls(t, current, original)) <==> k in m0
    ensures k in m0 ==> Apply(m0, t, ScopeCalls(t, current, original))[k] == m0[k]
  {
    var calls := ScopeCalls(t, current, original);
    SetCallsExactly(t, current, ToMap(original));
    DeleteCallsExactly(t, original, Names(current));
    forall i | 0 <= i < |calls| && calls[i].target == t ensures calls[i].name != k {
      assert calls[i] in calls;
    }
    ApplyUntouched(m0, t, calls, k);
  }

  /** Without elevation every call is in the user scope; with it, the machine
      scope gets exactly its own diff. */
  lemma SaveScopes(elevated: bool, user: seq<Binding>, system: seq<Binding>,
                   originalUser: seq<Binding>, originalSystem: seq<Binding>)
    ensures var calls := SaveCalls(elevated, user, system, originalUser, originalSystem);
      && (!elevated ==> forall c :: c in calls ==> c.target == User)
      && (elevated ==> calls[|ScopeCalls(User, user, originalUser)|..] == ScopeCalls(Machine, system, originalSystem))
  {
    SetCallsExactly(User, user, ToMap(originalUser));
    DeleteCallsExactly(User, originalUser, Names(user));
  }

  /** A machine entry added under a fresh name is set exactly once, in the
      machine scope, when the session is elevated, and not at all otherwise. */
  lemma NewMachineEntry(elevated: bool, user: seq<Binding>, originalUser: seq<Binding>,
                        originalSystem: seq<Binding>, b: Binding)
    requires DistinctNames(originalSystem) && b.name !in Names(originalSystem)
    ensures var calls := SaveCalls(elevated, user, originalSystem + [b], originalUser, originalSystem);
      && (elevated ==> calls[|ScopeCalls(User, user, originalUser)|..] == [Set(b.name, b.value, Machine)])
      && (!elevated ==> forall c :: c in calls ==> c.target == User)
  {
    SaveScopes(elevated, user, originalSystem + [b], originalUser, originalSystem);
    AppendOneEntry(Machine, originalSystem, b);
  }

  /** All user calls come before all machine calls, and within a scope all
      sets come before all deletes. */
  lemma SaveCallOrder(elevated: bool, user: seq<Binding>, system: seq<Binding>,
                      originalUser: seq<Binding>, originalSystem: seq<Binding>)
    ensures var calls := SaveCalls(elevated, user, system, originalUser, originalSystem);
      && (forall i, j :: 0 <= i < j < |calls| && calls[i].target == Machine ==> calls[j].target == Machine)
      && (forall i, j :: 0 <= i < j < |calls| && calls[i].Delete? && calls[j].target == calls[i].target
            ==> calls[j].Delete?)
  {
    var su, du := SetCalls(User, user, ToMap(originalUser)), DeleteCalls(User, originalUser, Names(user));
    var sm, dm := SetCalls(Machine, system, ToMap(originalSystem)), DeleteCalls(Machine, originalSystem, Names(system));
    SetCallsExactly(User, user, ToMap(originalUser));
    DeleteCallsExactly(User, originalUser, Names(user));
    SetCallsExactly(Machine, system, ToMap(originalSystem));
    DeleteCallsExactly(Machine, originalSystem, Names(system));
    var calls := SaveCalls(elevated, user, system, originalUser, originalSystem);
    var machine := if elevated then sm + dm else [];
    assert calls == su + du + machine;
    forall k | 0 <= k < |calls|
      ensures k < |su| ==> calls[k].Set? && calls[k].target == User
      ensures |su| <= k < |su| + |du| ==> calls[k].Delete? && calls[k].target == User
      ensures |su| + |du| <= k < |su| + |du| + |sm| ==> calls[k].Set? && calls[k].target == Machine
      ensures |su| + |du| + |sm| <= k ==> calls[k].Delete? && calls[k].target == Machine
    {
      if k < |su| {
        assert calls[k] == su[k] && su[k] in su;
      } else if k < |su| + |du| {
        assert calls[k] == du[k - |su|] && du[k - |su|] in du;
      } else if k < |su| + |du| + |sm| {
        assert calls[k] == sm[k - |su| - |du|] && sm[k - |su| - |du|] in sm;
      } else {
        assert calls[k] == dm[k - |su| - |du| - |sm|] && dm[k - |su| - |du| - |sm|] in dm;
      }
    }
  }

  /** With a repeated name the last CHANGED entry decides the stored value,
      not the last entry: an unchanged later duplicate issues no set. */
  lemma DuplicateNameEarlierChangeWins()
    ensures var current := [Binding("A", "2"), Binding("A", "1")];
      var original := [Binding("A", "1")];
      && ScopeCalls(User, current, original) == [Set("A", "2", User)]
      && Apply(ToMap(original), User, ScopeCalls(User, current, original)) == map["A" := "2"]
      && ToMap(current) == map["A" := "1"]
  {
    var current := [Binding("A", "2"), Binding("A", "1")];
    var original := [Binding("A", "1")];
    assert current[1..] == [Binding("A", "1")] && current[1..][1..] == [];
    assert original[1..] == [];
    assert Names(current) == {"A"};
    assert ToMap(original) == map["A" := "1"];
    var m := ToMap(original);
    assert NeedsSet(current[0], m) && !NeedsSet(current[1], m);
    assert SetCalls(User, current[1..], m) == [] + SetCalls(User, current[1..][1..], m);
    assert SetCalls(User, current, m) == [Set("A", "2", User)] + SetCalls(User, current[1..], m);
    assert DeleteCalls(User, original, Names(current)) == [];
    var calls := ScopeCalls(User, current, original);
    assert calls[1..] == [];
  }
}
