/**
 * A user or machine scope as the Windows store keeps it: two names that
 * differ only in letter case denote the same variable. Such a scope is a
 * map keyed by the case-folded name. Only ASCII letters are folded here.
 *
 * `Save` compares names case-sensitively (the default comparers of its
 * dictionary and name set), so a case-only rename issues a set of the new
 * spelling followed by a delete of the old one, and in this scope the delete
 * removes the variable just written. `RegistryScopeCalls` is the delete loop
 * with the comparison the store uses, and keeps every listed variable.
 */
module RegistryScope {
  import opened Models
  import opened Gateway
  import opened ChangeTracking

  /** Upper-cases an ASCII letter; every other character stays. */
  function FoldChar(c: char): (r: char)
    ensures !('a' <= r <= 'z')
    ensures !('a' <= c <= 'z') ==> r == c
  {
    if 'a' <= c <= 'z' then (c as int - 32) as char else c
  }

  /** The key a name is stored under. */
  function Fold(s: string): (r: string)
    ensures |r| == |s|
    ensures forall i :: 0 <= i < |r| ==> r[i] == FoldChar(s[i])
  {
    seq(|s|, i requires 0 <= i < |s| => FoldChar(s[i]))
  }

  /** A folded name is its own key. */
  lemma FoldIdempotent(s: string)
    ensures Fold(Fold(s)) == Fold(s)
  {
    var r := Fold(s);
    assert forall i :: 0 <= i < |r| ==> Fold(r)[i] == r[i];
  }

  /** What one call does to the case-insensitive map of scope `t`. */
  function RegistryEffect(m: map<string, string>, t: Target, c: Call): map<string, string> {
    if c.target != t then m
    else
      match c
      case Set(n, v, _) => m[Fold(n) := v]
      case Delete(n, _) => m - {Fold(n)}
  }

  /** The case-insensitive map of scope `t` after the calls, in order. */
  function RegistryApply(m: map<string, string>, t: Target, calls: seq<Call>): map<string, string>
    decreases |calls|
  {
    if calls == [] then m else RegistryApply(RegistryEffect(m, t, calls[0]), t, calls[1..])
  }

  lemma {:induction false} RegistryApplyConcat(m: map<string, string>, t: Target, xs: seq<Call>, ys: seq<Call>)
    ensures RegistryApply(m, t, xs + ys) == RegistryApply(RegistryApply(m, t, xs), t, ys)
    decreases |xs|
  {
    if xs == [] {
      assert xs + ys == ys;
    } else {
      assert (xs + ys)[0] == xs[0];
      assert (xs + ys)[1..] == xs[1..] + ys;
      RegistryApplyConcat(RegistryEffect(m, t, xs[0]), t, xs[1..], ys);
    }
  }

  /** `Path` and `PATH` are one variable in the store, two names to `Save`. */
  lemma PathIsPATH()
    ensures "Path" != "PATH" && Fold("Path") == Fold("PATH")
  {
    assert "Path"[1] != "PATH"[1];
    assert Fold("Path") == "PATH";
  }

  /** As written: after renaming an entry only in letter case, `Save` issues
      the set of the new spelling and then the delete of the old one, and the
      variable is gone from the store although the list still shows it. */
  lemma CaseOnlyRenameLosesVariable(t: Target, before: string, after: string, v: string, m: map<string, string>)
    requires before != after && Fold(before) == Fold(after)
    ensures ScopeCalls(t, [Binding(after, v)], [Binding(before, v)]) == [Set(after, v, t), Delete(before, t)]
    ensures Fold(after) !in RegistryApply(m, t, ScopeCalls(t, [Binding(after, v)], [Binding(before, v)]))
  {
    var current, original := [Binding(after, v)], [Binding(before, v)];
    assert current[1..] == [] && original[1..] == [];
    assert ToMap(original) == map[before := v];
    assert SetCalls(t, current, ToMap(original)) == [Set(after, v, t)];
    assert Names(current) == {after};
    assert DeleteCalls(t, original, Names(current)) == [Delete(before, t)];
    var calls := [Set(after, v, t), Delete(before, t)];
    var m1 := m[Fold(after) := v];
    assert calls[1..] == [Delete(before, t)] && calls[1..][1..] == [];
    assert RegistryApply(m, t, calls) == RegistryApply(m1, t, calls[1..]);
    assert RegistryApply(m1, t, calls[1..]) == m1 - {Fold(before)};
  }

  /** The current names, as the store compares them. */
  function FoldedNames(bs: seq<Binding>): (r: set<string>)
    ensures forall b :: b in bs ==> Fold(b.name) in r
  {
    set b | b in bs :: Fold(b.name)
  }

  /** The delete loop comparing names as the store does: a snapshot name is
      deleted only when no current name equals it up to letter case. */
  function RegistryDeleteCalls(t: Target, original: seq<Binding>, folded: set<string>): (r: seq<Call>)
    ensures forall c :: c in r ==> c.Delete? && c.target == t && Fold(c.name) !in folded
  {
    if original == [] then []
    else
      (if Fold(original[0].name) !in folded then [Delete(original[0].name, t)] else [])
      + RegistryDeleteCalls(t, original[1..], folded)
  }

  /** Everything the corrected `Save` issues for one scope. */
  function RegistryScopeCalls(t: Target, current: seq<Binding>, original: seq<Binding>): seq<Call> {
    SetCalls(t, current, ToMap(original)) + RegistryDeleteCalls(t, original, FoldedNames(current))
  }

  /** The sets never remove a key, and every pair that needs a set is stored. */
  lemma {:induction false} SetsStore(m: map<string, string>, t: Target, current: seq<Binding>, original: map<string, string>)
    ensures m.Keys <= RegistryApply(m, t, SetCalls(t, current, original)).Keys
    ensures forall b :: b in current && NeedsSet(b, original) ==>
      Fold(b.name) in RegistryApply(m, t, SetCalls(t, current, original))
    decreases |current|
  {
    if current != [] {
      var b := current[0];
      var tail := SetCalls(t, current[1..], original);
      var head := if NeedsSet(b, original) then [Set(b.name, b.value, t)] else [];
      assert SetCalls(t, current, original) == head + tail;
      RegistryApplyConcat(m, t, head, tail);
      var m' := RegistryApply(m, t, head);
      if NeedsSet(b, original) {
        assert RegistryApply(m, t, head) == RegistryApply(RegistryEffect(m, t, head[0]), t, head[1..]);
        assert m' == m[Fold(b.name) := b.value];
      } else {
        assert m' == m;
      }
      SetsStore(m', t, current[1..], original);
      assert forall x :: x in current ==> x == b || x in current[1..];
    }
  }

  /** The corrected deletes leave every key of a current name in place. */
  lemma {:induction false} DeletesSpare(m: map<string, string>, t: Target, original: seq<Binding>, folded: set<string>)
    ensures forall k :: k in folded && k in m ==> k in RegistryApply(m, t, RegistryDeleteCalls(t, original, folded))
    decreases |original|
  {
    if original != [] {
      var o := original[0];
      var tail := RegistryDeleteCalls(t, original[1..], folded);
      var head := if Fold(o.name) !in folded then [Delete(o.name, t)] else [];
      assert RegistryDeleteCalls(t, original, folded) == head + tail;
      RegistryApplyConcat(m, t, head, tail);
      var m' := RegistryApply(m, t, head);
      if Fold(o.name) !in folded {
        assert RegistryApply(m, t, head) == RegistryApply(RegistryEffect(m, t, head[0]), t, head[1..]);
        assert m' == m - {Fold(o.name)};
      } else {
        assert m' == m;
      }
      DeletesSpare(m', t, original[1..], folded);
    }
  }

  /** Corrected: when the store holds every snapshot name, saving a scope
      leaves every variable the list shows present in the store. */
  lemma CorrectedSaveKeepsListed(t: Target, current: seq<Binding>, original: seq<Binding>, m: map<string, string>)
    requires forall o :: o in original ==> Fold(o.name) in m
    ensures forall b :: b in current ==> Fold(b.name) in RegistryApply(m, t, RegistryScopeCalls(t, current, original))
  {
    var sets := SetCalls(t, current, ToMap(original));
    var folded := FoldedNames(current);
    RegistryApplyConcat(m, t, sets, RegistryDeleteCalls(t, original, folded));
    var afterSets := RegistryApply(m, t, sets);
    SetsStore(m, t, current, ToMap(original));
    DeletesSpare(afterSets, t, original, folded);
    forall b | b in current
      ensures Fold(b.name) in afterSets
    {
      if !NeedsSet(b, ToMap(original)) {
        NamesAt(original, b.name);
        var i :| 0 <= i < |original| && original[i].name == b.name;
        assert original[i] in original;
      }
    }
  }
}
