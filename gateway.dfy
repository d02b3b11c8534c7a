/**
 * The variable store behind the editor, reduced to what the editor sees of
 * it (the shape of IEnvironmentVariableService): one name-to-value map per
 * scope, a call to list a scope, per-entry set and delete, and the elevation
 * query. Delete is set-to-null in the store, i.e. removal of the name.
 */
module Gateway {
  import opened Models

  /** A name/value pair as the store lists it and as the snapshot keeps it. */
  datatype Binding = Binding(name: string, value: string)

  /** A mutating call issued to the store. */
  datatype Call =
    | Set(name: string, value: string, target: Target)
    | Delete(name: string, target: Target)

  /** The set of names the bindings use. */
  function Names(bs: seq<Binding>): set<string> {
    if bs == [] then {} else {bs[0].name} + Names(bs[1..])
  }

  /** No name is used twice. */
  predicate DistinctNames(bs: seq<Binding>) {
    bs == [] || (bs[0].name !in Names(bs[1..]) && DistinctNames(bs[1..]))
  }

  /** A name is used exactly when some position carries it. */
  lemma {:induction false} NamesAt(bs: seq<Binding>, n: string)
    ensures n in Names(bs) <==> exists i :: 0 <= i < |bs| && bs[i].name == n
  {
    if bs != [] {
      NamesAt(bs[1..], n);
      if n in Names(bs[1..]) {
        var i :| 0 <= i < |bs| - 1 && bs[1..][i].name == n;
        assert bs[i + 1].name == n;
      }
      if exists i :: 0 <= i < |bs| && bs[i].name == n {
        var i :| 0 <= i < |bs| && bs[i].name == n;
        if i > 0 {
          assert bs[1..][i - 1].name == n;
        }
      }
    }
  }

  lemma {:induction false} NamesConcat(xs: seq<Binding>, ys: seq<Binding>)
    ensures Names(xs + ys) == Names(xs) + Names(ys)
  {
    if xs == [] {
      assert xs + ys == ys;
    } else {
      assert (xs + ys)[1..] == xs[1..] + ys;
      NamesConcat(xs[1..], ys);
    }
  }

  lemma {:induction false} DistinctConcat(xs: seq<Binding>, ys: seq<Binding>)
    ensures DistinctNames(xs + ys) <==> DistinctNames(xs) && DistinctNames(ys) && Names(xs) !! Names(ys)
  {
    if xs == [] {
      assert xs + ys == ys;
    } else {
      assert (xs + ys)[1..] == xs[1..] + ys;
      DistinctConcat(xs[1..], ys);
      NamesConcat(xs[1..], ys);
    }
  }

  /** In a sequence with distinct names, a name identifies its binding. */
  lemma {:induction false} DistinctUnique(bs: seq<Binding>, b: Binding, b': Binding)
    requires DistinctNames(bs) && b in bs && b' in bs && b.name == b'.name
    ensures b == b'
  {
    assert bs == [bs[0]] + bs[1..];
    if b != bs[0] && b' != bs[0] {
      DistinctUnique(bs[1..], b, b');
    } else if b != b' {
      var other := if b == bs[0] then b' else b;
      assert other in bs[1..];
      var k :| 0 <= k < |bs[1..]| && bs[1..][k] == other;
      NamesAt(bs[1..], other.name);
    }
  }

  /** The dictionary `ToDictionary(v => v.Name, v => v.Value)` builds: keys are
      the names, and with distinct names every pair is found under its own
      name. On a repeated name this function keeps the last pair, where
      `ToDictionary` would throw; the session never builds one from such a list. */
  function ToMap(bs: seq<Binding>): (m: map<string, string>)
    ensures m.Keys == Names(bs)
    ensures DistinctNames(bs) ==> forall b :: b in bs ==> b.name in m && m[b.name] == b.value
  {
    if bs == [] then map[]
    else
      assert forall b :: b in bs ==> b == bs[0] || b in bs[1..];
      map[bs[0].name := bs[0].value] + ToMap(bs[1..])
  }

  /** Adding a binding at the end overrides its name. */
  lemma {:induction false} ToMapAppend(bs: seq<Binding>, b: Binding)
    ensures ToMap(bs + [b]) == ToMap(bs)[b.name := b.value]
  {
    if bs != [] {
      assert (bs + [b])[1..] == bs[1..] + [b];
      ToMapAppend(bs[1..], b);
    }
  }

  lemma {:induction false} DistinctAppend(bs: seq<Binding>, b: Binding)
    requires DistinctNames(bs) && b.name !in Names(bs)
    ensures DistinctNames(bs + [b]) && Names(bs + [b]) == Names(bs) + {b.name}
  {
    NamesConcat(bs, [b]);
    assert Names([b]) == {b.name};
    if bs != [] {
      assert (bs + [b])[1..] == bs[1..] + [b];
      DistinctAppend(bs[1..], b);
    }
  }

  /** Moving key `k` from `rest` into `a` keeps them apart and shrinks `rest`. */
  lemma MoveKey(a: map<string, string>, rest: map<string, string>, k: string)
    requires a.Keys !! rest.Keys && k in rest
    ensures a[k := rest[k]].Keys !! (rest - {k}).Keys
    ensures a[k := rest[k]] + (rest - {k}) == a + rest
    ensures |(rest - {k}).Keys| < |rest.Keys|
  {
    assert (rest - {k}).Keys == rest.Keys - {k};
    MoveKeyUnion(a, rest, k);
  }

  /** Moving key `k` from `rest` into `a` keeps their union. */
  lemma MoveKeyUnion(a: map<string, string>, rest: map<string, string>, k: string)
    requires k in rest
    ensures a[k := rest[k]] + (rest - {k}) == a + rest
  {
    var lhs := a[k := rest[k]] + (rest - {k});
    assert lhs.Keys == (a + rest).Keys;
    forall n | n in lhs.Keys ensures lhs[n] == (a + rest)[n] {
      if n != k && n in rest {
        assert lhs[n] == rest[n];
      }
    }
  }

  /** What one call does to the map of scope `t`. */
  function Effect(m: map<string, string>, t: Target, c: Call): map<string, string> {
    if c.target != t then m
    else
      match c
      case Set(n, v, _) => m[n := v]
      case Delete(n, _) => m - {n}
  }

  /** The map of scope `t` after the calls, in order. */
  function Apply(m: map<string, string>, t: Target, calls: seq<Call>): map<string, string>
    decreases |calls|
  {
    if calls == [] then m else Apply(Effect(m, t, calls[0]), t, calls[1..])
  }

  lemma {:induction false} ApplyAppend(m: map<string, string>, t: Target, calls: seq<Call>, c: Call)
    ensures Apply(m, t, calls + [c]) == Effect(Apply(m, t, calls), t, c)
    decreases |calls|
  {
    if calls != [] {
      assert (calls + [c])[1..] == calls[1..] + [c];
      ApplyAppend(Effect(m, t, calls[0]), t, calls[1..], c);
    }
  }

  lemma {:induction false} ApplyConcat(m: map<string, string>, t: Target, xs: seq<Call>, ys: seq<Call>)
    ensures Apply(m, t, xs + ys) == Apply(Apply(m, t, xs), t, ys)
    decreases |xs|
  {
    if xs == [] {
      assert xs + ys == ys;
    } else {
      assert (xs + ys)[0] == xs[0];
      assert (xs + ys)[1..] == xs[1..] + ys;
      ApplyConcat(Effect(m, t, xs[0]), t, xs[1..], ys);
    }
  }

  /** A name that no call of scope `t` mentions keeps its presence and value. */
  lemma {:induction false} ApplyUntouched(m: map<string, string>, t: Target, calls: seq<Call>, k: string)
    requires forall i :: 0 <= i < |calls| && calls[i].target == t ==> calls[i].name != k
    ensures k in Apply(m, t, calls) <==> k in m
    ensures k in m ==> Apply(m, t, calls)[k] == m[k]
    decreases |calls|
  {
    if calls != [] {
      ApplyUntouched(Effect(m, t, calls[0]), t, calls[1..], k);
    }
  }

  /** Calls of other scopes leave scope `t` alone. */
  lemma {:induction false} ApplyOtherScope(m: map<string, string>, t: Target, calls: seq<Call>)
    requires forall i :: 0 <= i < |calls| ==> calls[i].target != t
    ensures Apply(m, t, calls) == m
    decreases |calls|
  {
    if calls != [] {
      ApplyOtherScope(m, t, calls[1..]);
    }
  }

  /** The abstract store: one map per scope, the elevation answer, and a
      record of every set and delete it was asked to perform. */
  class EnvironmentStore {
    var process: map<string, string>
    var user: map<string, string>
    var machine: map<string, string>
    const elevated: bool
    var trace: seq<Call>

    constructor (user: map<string, string>, machine: map<string, string>, elevated: bool)
      ensures this.process == map[] && this.user == user && this.machine == machine
      ensures this.elevated == elevated && trace == []
    {
      this.process := map[];
      this.user := user;
      this.machine := machine;
      this.elevated := elevated;
      trace := [];
    }

    function Vars(t: Target): map<string, string>
      reads this
    {
      match t
      case Process => process
      case User => user
      case Machine => machine
    }

    /** The elevation answer; it is fixed when the store is created. */
    function IsElevated(): (r: bool)
      ensures r == elevated
    {
      elevated
    }

    /** Lists a scope, in no particular order, each name once. */
    method GetEnvironmentVariables(t: Target) returns (entries: seq<Binding>)
      ensures DistinctNames(entries)
      ensures ToMap(entries) == Vars(t)
    {
      var all := Vars(t);
      var rest := all;
      entries := [];
      while rest != map[]
        invariant DistinctNames(entries)
        invariant ToMap(entries).Keys !! rest.Keys
        invariant ToMap(entries) + rest == all
        decreases |rest.Keys|
      {
        var k :| k in rest;
        assert k !in Names(entries);
        ToMapAppend(entries, Binding(k, rest[k]));
        DistinctAppend(entries, Binding(k, rest[k]));
        MoveKey(ToMap(entries), rest, k);
        entries := entries + [Binding(k, rest[k])];
        rest := rest - {k};
      }
    }

    /** Overwrites or creates `name` in scope `t`. */
    method SetEnvironmentVariable(name: string, value: string, t: Target)
      modifies this
      ensures trace == old(trace) + [Set(name, value, t)]
      ensures forall u :: Vars(u) == Effect(old(Vars(u)), u, Set(name, value, t))
    {
      match t {
        case Process => process := process[name := value];
        case User => user := user[name := value];
        case Machine => machine := machine[name := value];
      }
      trace := trace + [Set(name, value, t)];
    }

    /** Removes `name` from scope `t`; a no-op when it is absent. */
    method DeleteEnvironmentVariable(name: string, t: Target)
      modifies this
      ensures trace == old(trace) + [Delete(name, t)]
      ensures forall u :: Vars(u) == Effect(old(Vars(u)), u, Delete(name, t))
    {
      match t {
        case Process => process := process - {name};
        case User => user := user - {name};
        case Machine => machine := machine - {name};
      }
      trace := trace + [Delete(name, t)];
    }
  }
}
