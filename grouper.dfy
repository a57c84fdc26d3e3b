/** Grouping a flat list of modules: every family of configurable modules of one
    type is collapsed into one wrapper. */
module Grouper {
  import opened TernModel
  import opened Eligibility

  /** One entry of the grouped list described by value: a module passed through
      unchanged, or the members of one type that a single wrapper collects,
      with the version the wrapper took when it was built. */
  datatype Slot =
    | Single(plain: Module)
    | Family(typeName: string, version: Option<string>, members: seq<Module>)

  predicate IsFamilyOf(s: Slot, t: string) {
    s.Family? && s.typeName == t
  }

  /** The wrapper the map `wrappers` holds for type t, as a position in the slots. */
  function FamilyIndex(slots: seq<Slot>, t: string): (r: Option<nat>)
    ensures r.Some? ==> r.value < |slots| && IsFamilyOf(slots[r.value], t)
    ensures r.None? <==> forall j :: 0 <= j < |slots| ==> !IsFamilyOf(slots[j], t)
  {
    if slots == [] then None
    else if IsFamilyOf(slots[0], t) then Some(0)
    else match FamilyIndex(slots[1..], t)
      case None => None
      case Some(k) => Some(k + 1)
  }

  /** One iteration of the loop of groupByType. */
  function Step(slots: seq<Slot>, m: Module): seq<Slot>
    reads ModuleFrame(m)
  {
    if !IsConfigurableModule(m) then slots + [Single(m)]
    else match FamilyIndex(slots, TypeOf(m))
      case None => slots + [Family(TypeOf(m), VersionOf(m), [m])]
      case Some(k) => slots[k := slots[k].(members := slots[k].members + [m])]
  }

  /** What groupByType appends for the modules seen so far, iteration by iteration. */
  function Grouped(ms: seq<Module>): seq<Slot>
    reads Confs(ms)
  {
    if ms == [] then [] else Step(Grouped(ms[..|ms| - 1]), ms[|ms| - 1])
  }

  // ---------------------------------------------------------------------------
  // An independent description of the result, read from left to right

  /** The types of the configurable modules of a list. */
  ghost function EligibleTypes(ms: seq<Module>): set<string>
    reads Confs(ms)
  {
    set m | m in ms && IsConfigurableModule(m) :: TypeOf(m)
  }

  /** The configurable modules of type t, in the order of the list. */
  function Members(ms: seq<Module>, t: string): seq<Module>
    reads Confs(ms)
  {
    if ms == [] then []
    else
      var last := ms[|ms| - 1];
      Members(ms[..|ms| - 1], t) + if IsConfigurableModule(last) && TypeOf(last) == t then [last] else []
  }

  /** How many modules of a list are not configurable. */
  function PlainCount(ms: seq<Module>): nat
    reads Confs(ms)
  {
    if ms == [] then 0
    else PlainCount(ms[..|ms| - 1]) + if IsConfigurableModule(ms[|ms| - 1]) then 0 else 1
  }

  /** The grouped list read from left to right: walking `rest`, a module that
      is not configurable stands for itself; the first configurable module of a
      type not yet in `seen` stands for all configurable modules of that type in
      `all`; later ones of the same type stand for nothing. */
  function Reference(rest: seq<Module>, seen: set<string>, all: seq<Module>): seq<Slot>
    reads Confs(rest), Confs(all)
    decreases |rest|
  {
    if rest == [] then []
    else
      var m := rest[0];
      if !IsConfigurableModule(m) then [Single(m)] + Reference(rest[1..], seen, all)
      else if TypeOf(m) in seen then Reference(rest[1..], seen, all)
      else [Family(TypeOf(m), VersionOf(m), Members(all, TypeOf(m)))] + Reference(rest[1..], seen + {TypeOf(m)}, all)
  }

  /** What the reference appends for one more module m, given the types already seen. */
  function Tail(seen: set<string>, m: Module, all: seq<Module>): seq<Slot>
    reads ModuleFrame(m), Confs(all)
  {
    if !IsConfigurableModule(m) then [Single(m)]
    else if TypeOf(m) in seen then []
    else [Family(TypeOf(m), VersionOf(m), Members(all, TypeOf(m)))]
  }

  /** A slot with m added to it when it is the family of m's type. */
  function AbsorbOne(s: Slot, m: Module): Slot {
    if IsFamilyOf(s, TypeOf(m)) then s.(members := s.members + [m]) else s
  }

  function Absorb(slots: seq<Slot>, m: Module): (r: seq<Slot>)
    ensures |r| == |slots| && forall k :: 0 <= k < |slots| ==> r[k] == AbsorbOne(slots[k], m)
  {
    seq(|slots|, k requires 0 <= k < |slots| => AbsorbOne(slots[k], m))
  }

  /** No two families of the slots share a type. */
  ghost predicate FamilyTypesDistinct(slots: seq<Slot>) {
    forall j1, j2 :: 0 <= j1 < j2 < |slots| && slots[j1].Family? && slots[j2].Family? ==>
      slots[j1].typeName != slots[j2].typeName
  }

  // ---------------------------------------------------------------------------
  // Lemmas

  lemma EligibleTypesSnoc(p: seq<Module>, m: Module)
    ensures EligibleTypes(p + [m]) == EligibleTypes(p) + if IsConfigurableModule(m) then {TypeOf(m)} else {}
  {
    var q := p + [m];
    forall t | t in EligibleTypes(q)
      ensures t in EligibleTypes(p) + if IsConfigurableModule(m) then {TypeOf(m)} else {}
    {
      var x :| x in q && IsConfigurableModule(x) && TypeOf(x) == t;
      if x != m { assert x in p; }
    }
    forall t | t in EligibleTypes(p) ensures t in EligibleTypes(q) {
      var x :| x in p && IsConfigurableModule(x) && TypeOf(x) == t;
      assert x in q;
    }
    if IsConfigurableModule(m) { assert m in q; }
  }

  lemma EligibleTypesCons(p: seq<Module>)
    requires p != []
    ensures EligibleTypes(p) == EligibleTypes(p[1..]) + if IsConfigurableModule(p[0]) then {TypeOf(p[0])} else {}
  {
    assert p == [p[0]] + p[1..];
    forall t | t in EligibleTypes(p)
      ensures t in EligibleTypes(p[1..]) + if IsConfigurableModule(p[0]) then {TypeOf(p[0])} else {}
    {
      var x :| x in p && IsConfigurableModule(x) && TypeOf(x) == t;
      if x != p[0] { assert x in p[1..]; }
    }
    forall t | t in EligibleTypes(p[1..]) ensures t in EligibleTypes(p) {
      var x :| x in p[1..] && IsConfigurableModule(x) && TypeOf(x) == t;
      assert x in p;
    }
  }

  /** A type has a family among the grouped slots exactly when some configurable
      module of that type was met. */
  lemma {:induction false} GroupedFamilies(ms: seq<Module>, t: string)
    ensures FamilyIndex(Grouped(ms), t).Some? <==> t in EligibleTypes(ms)
  {
    if ms != [] {
      var p, m := ms[..|ms| - 1], ms[|ms| - 1];
      assert ms == p + [m];
      GroupedFamilies(p, t);
      EligibleTypesSnoc(p, m);
      var g := Grouped(p);
      if FamilyIndex(g, t).Some? {
        var k := FamilyIndex(g, t).value;
        assert IsFamilyOf(Grouped(ms)[k], t);
      } else if t in EligibleTypes(ms) {
        assert IsConfigurableModule(m) && TypeOf(m) == t;
        assert IsFamilyOf(Grouped(ms)[|Grouped(ms)| - 1], t);
      } else {
        forall j | 0 <= j < |Grouped(ms)| ensures !IsFamilyOf(Grouped(ms)[j], t) {
          if j < |g| { assert !IsFamilyOf(g[j], t); }
        }
      }
    }
  }

  /** The wrappers groupByType creates are of distinct types. */
  lemma {:induction false} GroupedFamilyTypesDistinct(ms: seq<Module>)
    ensures FamilyTypesDistinct(Grouped(ms))
  {
    if ms != [] {
      var p, m := ms[..|ms| - 1], ms[|ms| - 1];
      GroupedFamilyTypesDistinct(p);
    }
  }

  /** The wrappers of the result hold no configurable module of a type never met. */
  lemma {:induction false} MembersOfAbsentType(ms: seq<Module>, t: string)
    requires t !in EligibleTypes(ms)
    ensures Members(ms, t) == []
  {
    if ms != [] {
      var p, m := ms[..|ms| - 1], ms[|ms| - 1];
      assert ms == p + [m];
      EligibleTypesSnoc(p, m);
      MembersOfAbsentType(p, t);
    }
  }

  lemma MembersSnoc(all: seq<Module>, m: Module, t: string)
    ensures Members(all + [m], t) == Members(all, t) + if IsConfigurableModule(m) && TypeOf(m) == t then [m] else []
  {
    assert (all + [m])[..|all|] == all;
  }

  /** The reference extended by one module at the end of `rest`. */
  lemma {:induction false} ReferenceSnoc(p: seq<Module>, m: Module, seen: set<string>, all: seq<Module>)
    ensures Reference(p + [m], seen, all) == Reference(p, seen, all) + Tail(seen + EligibleTypes(p), m, all)
    decreases |p|
  {
    if p == [] {
      assert [m][1..] == [];
      assert EligibleTypes(p) == {};
    } else {
      var x := p[0];
      assert (p + [m])[0] == x && (p + [m])[1..] == p[1..] + [m];
      var seen' := if IsConfigurableModule(x) then seen + {TypeOf(x)} else seen;
      ReferenceSnoc(p[1..], m, seen', all);
      EligibleTypesCons(p);
      assert seen' + EligibleTypes(p[1..]) == seen + EligibleTypes(p);
      if IsConfigurableModule(x) && TypeOf(x) in seen {
        assert seen' == seen;
      }
    }
  }

  /** The reference over `all` extended by m: m joins the family of its type. */
  ghost predicate AbsorbsInto(rest: seq<Module>, seen: set<string>, all: seq<Module>, m: Module)
    reads Confs(rest), Confs(all), Confs(all + [m]), ModuleFrame(m)
  {
    Reference(rest, seen, all + [m]) ==
      if IsConfigurableModule(m) then Absorb(Reference(rest, seen, all), m) else Reference(rest, seen, all)
  }

  lemma AbsorbCons(s: Slot, r: seq<Slot>, m: Module)
    ensures Absorb([s] + r, m) == [AbsorbOne(s, m)] + Absorb(r, m)
  {
  }

  /** The first module of `rest` is not configurable: it stands for itself either way. */
  lemma AbsorbsIntoPlain(rest: seq<Module>, seen: set<string>, all: seq<Module>, m: Module)
    requires rest != [] && !IsConfigurableModule(rest[0])
    requires AbsorbsInto(rest[1..], seen, all, m)
    ensures AbsorbsInto(rest, seen, all, m)
  {
    var x := rest[0];
    var r, r' := Reference(rest[1..], seen, all), Reference(rest[1..], seen, all + [m]);
    assert Reference(rest, seen, all) == [Single(x)] + r;
    assert Reference(rest, seen, all + [m]) == [Single(x)] + r';
    AbsorbCons(Single(x), r, m);
  }

  /** The first module of `rest` is of a type already seen: it stands for nothing. */
  lemma AbsorbsIntoSeen(rest: seq<Module>, seen: set<string>, all: seq<Module>, m: Module)
    requires rest != [] && IsConfigurableModule(rest[0]) && TypeOf(rest[0]) in seen
    requires AbsorbsInto(rest[1..], seen, all, m)
    ensures AbsorbsInto(rest, seen, all, m)
  {
  }

  /** The first module of `rest` opens a family, which m joins when it is of that type. */
  lemma AbsorbsIntoFamily(rest: seq<Module>, seen: set<string>, all: seq<Module>, m: Module)
    requires rest != [] && IsConfigurableModule(rest[0]) && TypeOf(rest[0]) !in seen
    requires AbsorbsInto(rest[1..], seen + {TypeOf(rest[0])}, all, m)
    ensures AbsorbsInto(rest, seen, all, m)
  {
    var t := TypeOf(rest[0]);
    var seen' := seen + {t};
    MembersSnoc(all, m, t);
    var r, r' := Reference(rest[1..], seen', all), Reference(rest[1..], seen', all + [m]);
    var v := VersionOf(rest[0]);
    var f, f' := Family(t, v, Members(all, t)), Family(t, v, Members(all + [m], t));
    assert Reference(rest, seen, all) == [f] + r;
    assert Reference(rest, seen, all + [m]) == [f'] + r';
    AbsorbCons(f, r, m);
    if IsConfigurableModule(m) {
      assert AbsorbOne(f, m) == f';
    } else {
      assert f' == f;
    }
  }

  /** The reference over one more module of `all`: that module joins the family
      of its type. */
  lemma {:induction false} ReferenceAbsorbs(rest: seq<Module>, seen: set<string>, all: seq<Module>, m: Module)
    ensures Reference(rest, seen, all + [m]) ==
              if IsConfigurableModule(m) then Absorb(Reference(rest, seen, all), m) else Reference(rest, seen, all)
    decreases |rest|
  {
    if rest != [] {
      var x := rest[0];
      var seen' := if IsConfigurableModule(x) then seen + {TypeOf(x)} else seen;
      ReferenceAbsorbs(rest[1..], seen', all, m);
      if !IsConfigurableModule(x) {
        AbsorbsIntoPlain(rest, seen, all, m);
      } else if TypeOf(x) in seen {
        assert seen' == seen;
        AbsorbsIntoSeen(rest, seen, all, m);
      } else {
        AbsorbsIntoFamily(rest, seen, all, m);
      }
    }
  }

  /** One iteration on the grouped prefix: m joins the family of its type when
      there is one, and otherwise adds what the reference adds for it. */
  lemma StepIsAbsorbAndTail(p: seq<Module>, m: Module)
    ensures Step(Grouped(p), m) ==
              (if IsConfigurableModule(m) then Absorb(Grouped(p), m) else Grouped(p))
              + Tail(EligibleTypes(p), m, p + [m])
  {
    var g, ms := Grouped(p), p + [m];
    MembersSnoc(p, m, TypeOf(m));
    if !IsConfigurableModule(m) {
      assert Tail(EligibleTypes(p), m, ms) == [Single(m)];
    } else {
      var t := TypeOf(m);
      GroupedFamilies(p, t);
      match FamilyIndex(g, t)
      case None =>
        MembersOfAbsentType(p, t);
        assert Absorb(g, m) == g;
        assert Members(ms, t) == [m];
        assert Tail(EligibleTypes(p), m, ms) == [Family(t, VersionOf(m), [m])];
      case Some(k) =>
        GroupedFamilyTypesDistinct(p);
        assert Absorb(g, m) == g[k := g[k].(members := g[k].members + [m])];
        assert Tail(EligibleTypes(p), m, ms) == [];
    }
  }

  /** groupByType computes the reference: its loop appends exactly the slots the
      left-to-right description gives, in the same order. */
  lemma {:induction false} GroupedIsReference(ms: seq<Module>)
    ensures Grouped(ms) == Reference(ms, {}, ms)
  {
    if ms != [] {
      var p, m := ms[..|ms| - 1], ms[|ms| - 1];
      assert ms == p + [m];
      GroupedIsReference(p);
      ReferenceSnoc(p, m, {}, ms);
      ReferenceAbsorbs(p, {}, p, m);
      assert {} + EligibleTypes(p) == EligibleTypes(p);
      StepIsAbsorbAndTail(p, m);
      assert Grouped(ms) == Step(Grouped(p), m);
    }
  }

  /** The number of appended entries: one per module that is not configurable and
      one per type among the configurable ones. */
  lemma {:induction false} GroupedLength(ms: seq<Module>)
    ensures |Grouped(ms)| == PlainCount(ms) + |EligibleTypes(ms)|
  {
    if ms != [] {
      var p, m := ms[..|ms| - 1], ms[|ms| - 1];
      assert ms == p + [m];
      GroupedLength(p);
      EligibleTypesSnoc(p, m);
      GroupedFamilies(p, TypeOf(m));
      assert Grouped(ms) == Step(Grouped(p), m);
      assert PlainCount(ms) == PlainCount(p) + if IsConfigurableModule(m) then 0 else 1;
      if IsConfigurableModule(m) {
        if TypeOf(m) in EligibleTypes(p) {
          assert EligibleTypes(ms) == EligibleTypes(p);
        } else {
          assert |EligibleTypes(ms)| == |EligibleTypes(p)| + 1;
        }
      } else {
        assert EligibleTypes(ms) == EligibleTypes(p);
      }
    }
  }

  // ---------------------------------------------------------------------------
  // Conservation: grouping loses and duplicates no module

  /** The modules a slot stands for. */
  function SlotModules(s: Slot): seq<Module> {
    match s
    case Single(m) => [m]
    case Family(_, _, xs) => xs
  }

  /** All modules the slots stand for, slot after slot. */
  function Flatten(slots: seq<Slot>): seq<Module> {
    if slots == [] then [] else Flatten(slots[..|slots| - 1]) + SlotModules(slots[|slots| - 1])
  }

  lemma FlattenAppend(slots: seq<Slot>, s: Slot)
    ensures Flatten(slots + [s]) == Flatten(slots) + SlotModules(s)
  {
    assert (slots + [s])[..|slots|] == slots;
  }

  lemma {:induction false} FlattenConcat(a: seq<Slot>, b: seq<Slot>)
    ensures Flatten(a + b) == Flatten(a) + Flatten(b)
    decreases |b|
  {
    if b != [] {
      var n := |b| - 1;
      assert (a + b)[..|a + b| - 1] == a + b[..n] && (a + b)[|a + b| - 1] == b[n];
      FlattenConcat(a, b[..n]);
      assert Flatten(a + b) == (Flatten(a) + Flatten(b[..n])) + SlotModules(b[n]);
    } else {
      assert a + b == a;
    }
  }

  lemma MultisetCancel(a: multiset<Module>, b: multiset<Module>, c: multiset<Module>, e: multiset<Module>)
    requires a + c == b + (c + e)
    ensures a == b + e
  {
    assert b + (c + e) == (b + e) + c;
    forall x ensures a[x] == (b + e)[x] {
      assert (a + c)[x] == ((b + e) + c)[x];
    }
  }

  /** Replacing one slot replaces the modules it stands for. */
  lemma FlattenUpdate(slots: seq<Slot>, k: nat, s: Slot)
    requires k < |slots|
    ensures multiset(Flatten(slots[k := s])) + multiset(SlotModules(slots[k]))
         == multiset(Flatten(slots)) + multiset(SlotModules(s))
  {
    var before, after := slots[..k], slots[k + 1..];
    assert slots == before + [slots[k]] + after;
    assert slots[k := s] == before + [s] + after;
    FlattenConcat(before + [slots[k]], after);
    FlattenConcat(before + [s], after);
    FlattenAppend(before, slots[k]);
    FlattenAppend(before, s);
    var mb, ma := multiset(Flatten(before)), multiset(Flatten(after));
    var mo, mn := multiset(SlotModules(slots[k])), multiset(SlotModules(s));
    assert multiset(Flatten(slots[k := s])) == mb + mn + ma;
    assert multiset(Flatten(slots)) == mb + mo + ma;
    forall x ensures (mb + mn + ma + mo)[x] == (mb + mo + ma + mn)[x] { }
  }

  /** One iteration adds exactly the module it reads. */
  lemma StepConserves(slots: seq<Slot>, m: Module)
    ensures multiset(Flatten(Step(slots, m))) == multiset(Flatten(slots)) + multiset{m}
  {
    if !IsConfigurableModule(m) {
      assert Step(slots, m) == slots + [Single(m)];
      FlattenAppend(slots, Single(m));
    } else {
      var t := TypeOf(m);
      match FamilyIndex(slots, t)
      case None =>
        assert Step(slots, m) == slots + [Family(t, VersionOf(m), [m])];
        FlattenAppend(slots, Family(t, VersionOf(m), [m]));
      case Some(k) =>
        var s' := slots[k].(members := slots[k].members + [m]);
        assert Step(slots, m) == slots[k := s'];
        assert multiset(SlotModules(s')) == multiset(SlotModules(slots[k])) + multiset{m};
        FlattenUpdate(slots, k, s');
        MultisetCancel(multiset(Flatten(slots[k := s'])), multiset(Flatten(slots)),
                       multiset(SlotModules(slots[k])), multiset{m});
    }
  }

  /** The modules the grouped list stands for (the plain entries and the members
      of every wrapper) are exactly the input modules, with their multiplicity. */
  lemma {:induction false} GroupedConserves(ms: seq<Module>)
    ensures multiset(Flatten(Grouped(ms))) == multiset(ms)
  {
    if ms != [] {
      var p, m := ms[..|ms| - 1], ms[|ms| - 1];
      assert ms == p + [m];
      GroupedConserves(p);
      StepConserves(Grouped(p), m);
    }
  }

  /** Every family of the grouped list has a first member, and carries the
      version that first member had: the version its wrapper starts with. */
  lemma {:induction false} GroupedFamilyVersion(ms: seq<Module>)
    ensures forall k :: 0 <= k < |Grouped(ms)| && Grouped(ms)[k].Family? ==>
              Grouped(ms)[k].members != [] && Grouped(ms)[k].version == VersionOf(Grouped(ms)[k].members[0])
  {
    if ms != [] {
      var p, m := ms[..|ms| - 1], ms[|ms| - 1];
      GroupedFamilyVersion(p);
      var g := Grouped(p);
      assert Grouped(ms) == Step(g, m);
      forall k | 0 <= k < |Step(g, m)| && Step(g, m)[k].Family?
        ensures Step(g, m)[k].members != [] && Step(g, m)[k].version == VersionOf(Step(g, m)[k].members[0])
      {
        if k < |g| && g[k].Family? {
          assert Step(g, m)[k].members[0] == g[k].members[0];
        }
      }
    }
  }

  // ---------------------------------------------------------------------------
  // The method

  /** The entry x appended by groupByType stands for the slot s: the module
      itself for a Single slot; for a Family slot, a wrapper built around the
      first member (its name, type and metadata, one level deeper, no options)
      that holds all members, in order. */
  ghost predicate RealizesSlot(x: Module, s: Slot)
    reads if s.Family? && x.Configurable? then {x.conf} else {}
  {
    match s
    case Single(m) => x == m
    case Family(t, v, xs) =>
      && x.Configurable?
      && TypeOf(x) == t
      && x.conf.version == v
      && xs != []
      && x.conf.wrapped == xs[0]
      && x.conf.name == NameOf(xs[0])
      && x.conf.metadata == MetadataOf(xs[0])
      && x.conf.depth == DepthOf(xs[0]) + 1
      && x.conf.options == EmptyObject
      && x.conf.modules == xs
  }

  /** The entries out realize the slots one by one. */
  ghost predicate Realizes(out: seq<Module>, slots: seq<Slot>)
    reads Confs(out)
  {
    && |out| == |slots|
    && forall k :: 0 <= k < |slots| ==> RealizesSlot(out[k], slots[k])
  }

  /** The wrappers of the family slots are pairwise distinct objects. */
  ghost predicate DistinctWrappers(out: seq<Module>, slots: seq<Slot>)
    requires |out| == |slots|
  {
    forall j1, j2 :: 0 <= j1 < |slots| && 0 <= j2 < |slots| && j1 != j2 &&
      slots[j1].Family? && slots[j2].Family? && out[j1].Configurable? && out[j2].Configurable?
      ==> out[j1].conf != out[j2].conf
  }

  /** The state groupByType keeps between iterations: the entries it appended
      realize the slots, and its map from type to wrapper holds exactly the
      wrappers of the family slots. */
  ghost predicate GroupState(out: seq<Module>, slots: seq<Slot>, wrappers: map<string, ModuleConfigurable>)
    reads Confs(out)
  {
    Realizes(out, slots) && Bookkeeping(out, slots, wrappers)
  }

  /** The part of the state that does not depend on the wrappers' contents. */
  ghost predicate Bookkeeping(out: seq<Module>, slots: seq<Slot>, wrappers: map<string, ModuleConfigurable>) {
    && |out| == |slots|
    && DistinctWrappers(out, slots)
    && (forall t :: t in wrappers <==> FamilyIndex(slots, t).Some?)
    && (forall k :: 0 <= k < |slots| && slots[k].Family? ==>
          slots[k].typeName in wrappers && out[k] == Configurable(wrappers[slots[k].typeName]))
  }

  /** Appending an entry that realizes a new slot keeps the correspondence. */
  lemma RealizesAppend(out: seq<Module>, slots: seq<Slot>, x: Module, s: Slot)
    requires Realizes(out, slots) && RealizesSlot(x, s)
    ensures Realizes(out + [x], slots + [s])
  {
    var out', slots' := out + [x], slots + [s];
    forall k | 0 <= k < |slots'| ensures RealizesSlot(out'[k], slots'[k]) {
      if k < |slots| { assert out'[k] == out[k] && slots'[k] == slots[k]; }
    }
  }

  /** Appending a module that is not configurable keeps the bookkeeping. */
  lemma BookkeepingAppendPlain(out: seq<Module>, slots: seq<Slot>, wrappers: map<string, ModuleConfigurable>, m: Module)
    requires Bookkeeping(out, slots, wrappers)
    ensures Bookkeeping(out + [m], slots + [Single(m)], wrappers)
  {
    var out', slots' := out + [m], slots + [Single(m)];
    assert forall k :: 0 <= k < |slots| ==> out'[k] == out[k] && slots'[k] == slots[k];
    forall t ensures FamilyIndex(slots', t).Some? <==> FamilyIndex(slots, t).Some? {
      if FamilyIndex(slots, t).Some? { assert IsFamilyOf(slots'[FamilyIndex(slots, t).value], t); }
    }
  }

  /** Appending a new wrapper for a type not yet wrapped keeps the bookkeeping. */
  lemma BookkeepingOpenFamily(out: seq<Module>, slots: seq<Slot>, wrappers: map<string, ModuleConfigurable>,
                              w: ModuleConfigurable, t: string, v: Option<string>, xs: seq<Module>)
    requires Bookkeeping(out, slots, wrappers)
    requires t !in wrappers && w !in Confs(out)
    ensures Bookkeeping(out + [Configurable(w)], slots + [Family(t, v, xs)], wrappers[t := w])
  {
    var out', slots' := out + [Configurable(w)], slots + [Family(t, v, xs)];
    assert forall k :: 0 <= k < |slots| ==> out'[k] == out[k] && slots'[k] == slots[k];
    forall u ensures FamilyIndex(slots', u).Some? <==> FamilyIndex(slots, u).Some? || u == t {
      if FamilyIndex(slots, u).Some? { assert IsFamilyOf(slots'[FamilyIndex(slots, u).value], u); }
      if u == t { assert IsFamilyOf(slots'[|slots|], u); }
    }
    forall j | 0 <= j < |slots| && slots[j].Family? ensures out'[j].conf != w {
      assert out[j] in out;
    }
  }

  /** Bookkeeping does not look at the members of a family slot. */
  lemma BookkeepingMembers(out: seq<Module>, slots: seq<Slot>, wrappers: map<string, ModuleConfigurable>,
                           k: nat, xs: seq<Module>)
    requires Bookkeeping(out, slots, wrappers)
    requires k < |slots| && slots[k].Family?
    ensures Bookkeeping(out, slots[k := slots[k].(members := xs)], wrappers)
  {
    var slots' := slots[k := slots[k].(members := xs)];
    forall t ensures FamilyIndex(slots', t).Some? <==> FamilyIndex(slots, t).Some? {
      if FamilyIndex(slots, t).Some? { assert IsFamilyOf(slots'[FamilyIndex(slots, t).value], t); }
      if FamilyIndex(slots', t).Some? { assert IsFamilyOf(slots[FamilyIndex(slots', t).value], t); }
    }
  }

  /** Every module of the list has a finite chain of wrappers. */
  ghost predicate AllFinite(ms: seq<Module>) {
    forall x :: x in ms ==> Finite(x)
  }

  lemma AllFiniteAppend(ms: seq<Module>, x: Module)
    requires AllFinite(ms) && Finite(x)
    ensures AllFinite(ms + [x])
  {
  }

  /** A module that is not configurable is appended as it is. */
  method AppendPlain(m: Module, wrappers: map<string, ModuleConfigurable>, groupedModules: JavaList<Module>,
                     ghost n0: nat, ghost slots: seq<Slot>)
    returns (ghost slots': seq<Slot>)
    requires n0 <= |groupedModules.elems|
    requires GroupState(groupedModules.elems[n0..], slots, wrappers)
    requires !IsConfigurableModule(m)
    modifies groupedModules
    ensures slots' == slots + [Single(m)] == old(Step(slots, m))
    ensures groupedModules.elems == old(groupedModules.elems) + [m]
    ensures n0 <= |groupedModules.elems| && groupedModules.elems[..n0] == old(groupedModules.elems[..n0])
    ensures GroupState(groupedModules.elems[n0..], slots', wrappers)
    ensures Finite(m) && AllFinite(old(groupedModules.elems[n0..])) ==> AllFinite(groupedModules.elems[n0..])
  {
    ghost var out := groupedModules.elems[n0..];
    assert Step(slots, m) == slots + [Single(m)];
    groupedModules.Add(m);
    slots' := slots + [Single(m)];
    assert groupedModules.elems[n0..] == out + [m];
    if Finite(m) && AllFinite(out) { AllFiniteAppend(out, m); }
    RealizesAppend(out, slots, m, Single(m));
    BookkeepingAppendPlain(out, slots, wrappers, m);
  }

  /** A wrapper just built around m, for a type not yet wrapped, extends the state
      by a family slot holding m alone. */
  lemma OpenFamilyKeeps(out: seq<Module>, slots: seq<Slot>, wrappers: map<string, ModuleConfigurable>,
                        w: ModuleConfigurable, m: Module)
    requires GroupState(out, slots, wrappers)
    requires TypeOf(m) !in wrappers && w !in Confs(out)
    requires w.wrapped == m && w.typeName == TypeOf(m) && w.name == NameOf(m) && w.metadata == MetadataOf(m)
    requires w.depth == DepthOf(m) + 1 && w.modules == [m] && w.version == VersionOf(m) && w.options == EmptyObject
    ensures GroupState(out + [Configurable(w)], slots + [Family(TypeOf(m), VersionOf(m), [m])], wrappers[TypeOf(m) := w])
  {
    var family := Family(TypeOf(m), VersionOf(m), [m]);
    assert RealizesSlot(Configurable(w), family);
    RealizesAppend(out, slots, Configurable(w), family);
    BookkeepingOpenFamily(out, slots, wrappers, w, TypeOf(m), VersionOf(m), [m]);
  }

  /** The first configurable module of its type is wrapped, and the wrapper is
      appended and remembered for the type. */
  method OpenFamily(m: Module, wrappers: map<string, ModuleConfigurable>, groupedModules: JavaList<Module>,
                    ghost n0: nat, ghost slots: seq<Slot>)
    returns (wrapper: ModuleConfigurable, wrappers': map<string, ModuleConfigurable>, ghost slots': seq<Slot>)
    requires n0 <= |groupedModules.elems|
    requires GroupState(groupedModules.elems[n0..], slots, wrappers)
    requires IsConfigurableModule(m) && TypeOf(m) !in wrappers
    modifies groupedModules
    ensures slots' == slots + [Family(TypeOf(m), VersionOf(m), [m])] == old(Step(slots, m))
    ensures groupedModules.elems == old(groupedModules.elems) + [Configurable(wrapper)]
    ensures n0 <= |groupedModules.elems| && groupedModules.elems[..n0] == old(groupedModules.elems[..n0])
    ensures GroupState(groupedModules.elems[n0..], slots', wrappers')
    ensures wrappers' == wrappers[TypeOf(m) := wrapper]
    ensures forall t :: t in wrappers' ==> (t in wrappers && wrappers'[t] == wrappers[t]) || fresh(wrappers'[t])
    ensures fresh(wrapper) && wrapper.wrapped == m && wrapper.version == old(VersionOf(m))
    ensures Finite(m) && AllFinite(old(groupedModules.elems[n0..])) ==> AllFinite(groupedModules.elems[n0..])
  {
    ghost var out := groupedModules.elems[n0..];
    assert FamilyIndex(slots, TypeOf(m)).None?;
    assert Step(slots, m) == slots + [Family(TypeOf(m), VersionOf(m), [m])];
    wrapper := new ModuleConfigurable(m);
    wrappers' := wrappers[TypeOf(m) := wrapper];
    groupedModules.Add(Configurable(wrapper));
    slots' := slots + [Family(TypeOf(m), VersionOf(m), [m])];
    assert groupedModules.elems[n0..] == out + [Configurable(wrapper)];
    assert Realizes(out, slots);
    OpenFamilyKeeps(out, slots, wrappers, wrapper, m);
    if Finite(m) && AllFinite(out) { AllFiniteAppend(out, Configurable(wrapper)); }
  }

  /** A later configurable module of a type already wrapped joins that wrapper. */
  method JoinFamily(m: Module, wrappers: map<string, ModuleConfigurable>, groupedModules: JavaList<Module>,
                    ghost n0: nat, ghost slots: seq<Slot>)
    returns (ghost slots': seq<Slot>)
    requires n0 <= |groupedModules.elems|
    requires GroupState(groupedModules.elems[n0..], slots, wrappers)
    requires IsConfigurableModule(m) && TypeOf(m) in wrappers
    requires m.Configurable? ==> m.conf !in wrappers.Values
    modifies wrappers[TypeOf(m)]
    ensures FamilyIndex(slots, TypeOf(m)).Some?
    ensures var k := FamilyIndex(slots, TypeOf(m)).value;
            slots' == slots[k := slots[k].(members := slots[k].members + [m])] == old(Step(slots, m))
    ensures GroupState(groupedModules.elems[n0..], slots', wrappers)
  {
    ghost var out := groupedModules.elems[n0..];
    var wrapper := wrappers[TypeOf(m)];
    ghost var k := FamilyIndex(slots, TypeOf(m)).value;
    assert Step(slots, m) == slots[k := slots[k].(members := slots[k].members + [m])];
    assert out[k] == Configurable(wrapper);
    wrapper.AddModule(m);
    slots' := slots[k := slots[k].(members := slots[k].members + [m])];
    BookkeepingMembers(out, slots, wrappers, k, slots[k].members + [m]);
    forall j | 0 <= j < |slots'| ensures RealizesSlot(out[j], slots'[j]) {
      if j != k {
        assert old(RealizesSlot(out[j], slots[j]));
        if slots[j].Family? { assert out[j].conf != wrapper; }
      }
    }
  }

  /** The body of the loop of groupByType, for one module m. */
  method GroupModule(m: Module, wrappers: map<string, ModuleConfigurable>, groupedModules: JavaList<Module>,
                     ghost n0: nat, ghost slots: seq<Slot>)
    returns (wrappers': map<string, ModuleConfigurable>, ghost slots': seq<Slot>)
    requires n0 <= |groupedModules.elems|
    requires GroupState(groupedModules.elems[n0..], slots, wrappers)
    requires m.Configurable? ==> m.conf !in wrappers.Values
    modifies groupedModules, wrappers.Values
    ensures slots' == old(Step(slots, m))
    ensures n0 <= |groupedModules.elems| && groupedModules.elems[..n0] == old(groupedModules.elems[..n0])
    ensures GroupState(groupedModules.elems[n0..], slots', wrappers')
    ensures forall t :: t in wrappers' ==> (t in wrappers && wrappers'[t] == wrappers[t]) || fresh(wrappers'[t])
    ensures Finite(m) && AllFinite(old(groupedModules.elems[n0..])) ==> AllFinite(groupedModules.elems[n0..])
  {
    if !IsConfigurableModule(m) {
      slots' := AppendPlain(m, wrappers, groupedModules, n0, slots);
      wrappers' := wrappers;
    } else if TypeOf(m) !in wrappers {
      var wrapper;
      wrapper, wrappers', slots' := OpenFamily(m, wrappers, groupedModules, n0, slots);
    } else {
      slots' := JoinFamily(m, wrappers, groupedModules, n0, slots);
      wrappers' := wrappers;
    }
  }

  /** TernModuleHelper.groupByType. */
  method GroupByType(modules: seq<Module>, groupedModules: JavaList<Module>)
    modifies groupedModules
    ensures |groupedModules.elems| >= |old(groupedModules.elems)|
    ensures groupedModules.elems[..|old(groupedModules.elems)|] == old(groupedModules.elems)
    ensures Realizes(groupedModules.elems[|old(groupedModules.elems)|..], old(Grouped(modules)))
    ensures forall k ::
              |old(groupedModules.elems)| <= k < |groupedModules.elems|
              && old(Grouped(modules))[k - |old(groupedModules.elems)|].Family?
              ==> fresh(groupedModules.elems[k].conf)
    ensures AllFinite(modules) ==> AllFinite(groupedModules.elems[|old(groupedModules.elems)|..])
  {
    var wrappers: map<string, ModuleConfigurable> := map[];
    ghost var n0 := |groupedModules.elems|;
    ghost var slots: seq<Slot> := [];
    var i := 0;
    while i < |modules|
      invariant 0 <= i <= |modules|
      invariant slots == old(Grouped(modules[..i]))
      invariant n0 <= |groupedModules.elems| && groupedModules.elems[..n0] == old(groupedModules.elems)
      invariant GroupState(groupedModules.elems[n0..], slots, wrappers)
      invariant forall t :: t in wrappers ==> fresh(wrappers[t])
      invariant AllFinite(modules) ==> AllFinite(groupedModules.elems[n0..])
    {
      var m := modules[i];
      assert modules[..i + 1][..i] == modules[..i];
      assert old(Grouped(modules[..i + 1])) == old(Step(Grouped(modules[..i]), m));
      assert Step(slots, m) == old(Step(slots, m));
      wrappers, slots := GroupModule(m, wrappers, groupedModules, n0, slots);
      i := i + 1;
    }
    assert modules[..i] == modules;
  }
}
