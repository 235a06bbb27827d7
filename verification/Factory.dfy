/** Registration and re-entrant initialisation of the element factories: `Factory::init`,
    `getFactoryInstanceByName` and the `getInstance` of each factory class call each other over
    static state. A descriptor's own `init` is a constant result. */
module Factory {
  import opened Wrappers

  /** A class declared with `DECLARE_FACTORY_GET_INSTANCE`; it has at most one instance. */
  type ClassId = nat

  datatype FactoryDescriptor = FactoryDescriptor(factoryName: string, initResult: int, factoryClass: ClassId)

  datatype ElementDescriptor = ElementDescriptor(factoryName: string, elementClassName: string, initResult: int)

  /** The map of factories; a null pointer is `None`. */
  type FactoryMap = map<string, Option<ClassId>>

  /** The map of one factory instance. */
  type ElementMap = map<string, Option<ElementDescriptor>>

  function ClassOf(factories: FactoryMap, name: string): Option<ClassId> {
    if name in factories then factories[name] else None
  }

  /** `factoryMap[name]` inserts a null pointer for a missing name. */
  function Subscript(factories: FactoryMap, name: string): FactoryMap {
    if name in factories then factories else factories[name := None]
  }

  /** `map::insert` leaves an existing key alone. */
  function Insert(factories: FactoryMap, d: FactoryDescriptor): FactoryMap {
    if d.initResult != 0 || d.factoryName in factories then factories
    else factories[d.factoryName := Some(d.factoryClass)]
  }

  /** What touches the map of factories: a lookup by name or a registration. */
  datatype FactoryEvent = Lookup(name: string) | Registration(d: FactoryDescriptor)

  function Touch(factories: FactoryMap, e: FactoryEvent): FactoryMap {
    match e
    case Lookup(name) => Subscript(factories, name)
    case Registration(d) => Insert(factories, d)
  }

  /** The map after a sequence of lookups and registrations, from the start of the program. */
  function Replay(events: seq<FactoryEvent>): FactoryMap {
    if events == [] then map[] else Touch(Replay(events[..|events| - 1]), events[|events| - 1])
  }

  function Registrations(descs: seq<FactoryDescriptor>): (r: seq<FactoryEvent>)
    ensures |r| == |descs|
    ensures forall i :: 0 <= i < |descs| ==> r[i] == Registration(descs[i])
  {
    seq(|descs|, i requires 0 <= i < |descs| => Registration(descs[i]))
  }

  /** What `m[name]` reads: a null pointer for a missing name. */
  function Entry(m: ElementMap, name: string): Option<ElementDescriptor> {
    if name in m then m[name] else None
  }

  predicate Clean(m: ElementMap) {
    forall k :: k in m ==> m[k].Some?
  }

  /** `m` without its null pointers. */
  function Live(m: ElementMap): ElementMap {
    map k | k in m && m[k].Some? :: m[k]
  }

  ghost function Classes(factories: FactoryMap): set<ClassId> {
    set name | name in factories && factories[name].Some? :: factories[name].value
  }

  function Named(factories: FactoryMap, d: ElementDescriptor): Option<ClassId> {
    ClassOf(factories, d.factoryName)
  }

  /** Every descriptor names a registered factory. */
  ghost predicate AllNamed(factories: FactoryMap, descs: seq<ElementDescriptor>) {
    forall j :: 0 <= j < |descs| ==> Named(factories, descs[j]).Some?
  }

  /** The factory classes that descriptors name. */
  ghost function NamedClasses(factories: FactoryMap, descs: seq<ElementDescriptor>): set<ClassId> {
    set j | 0 <= j < |descs| && Named(factories, descs[j]).Some? :: Named(factories, descs[j]).value
  }

  /** `d` registers a class in factory class `c`. */
  predicate Offers(factories: FactoryMap, c: ClassId, d: ElementDescriptor) {
    Named(factories, d) == Some(c) && d.initResult == 0
  }

  function Register(m: ElementMap, d: ElementDescriptor): ElementMap {
    if d.initResult != 0 || d.elementClassName in m then m else m[d.elementClassName := Some(d)]
  }

  /** The map of factory class `c` once the first `k` descriptors have been registered. */
  function Table(factories: FactoryMap, descs: seq<ElementDescriptor>, c: ClassId, k: nat): ElementMap
    requires k <= |descs|
  {
    if k == 0 then map[]
    else
      var m := Table(factories, descs, c, k - 1);
      if Named(factories, descs[k - 1]) == Some(c) then Register(m, descs[k - 1]) else m
  }

  /** `j` is the first of the first `k` descriptors that offers `name` in `c`. */
  predicate FirstOffer(factories: FactoryMap, descs: seq<ElementDescriptor>, c: ClassId, name: string, k: nat, j: nat) {
    && j < k <= |descs| && Offers(factories, c, descs[j]) && descs[j].elementClassName == name
    && forall i :: 0 <= i < j ==> !(Offers(factories, c, descs[i]) && descs[i].elementClassName == name)
  }

  /** The table maps a name exactly when some descriptor offers it, and then to the first that does. */
  lemma {:induction false} TableIsFirstOffer(factories: FactoryMap, descs: seq<ElementDescriptor>,
                                             c: ClassId, name: string, k: nat)
    requires k <= |descs|
    ensures name in Table(factories, descs, c, k) <==> exists j: nat :: FirstOffer(factories, descs, c, name, k, j)
    ensures forall j: nat :: FirstOffer(factories, descs, c, name, k, j) ==>
              name in Table(factories, descs, c, k) && Table(factories, descs, c, k)[name] == Some(descs[j])
  {
    if k > 0 {
      TableIsFirstOffer(factories, descs, c, name, k - 1);
      var m := Table(factories, descs, c, k - 1);
      if name in m {
        var j: nat :| FirstOffer(factories, descs, c, name, k - 1, j);
        assert FirstOffer(factories, descs, c, name, k, j);
      } else if Offers(factories, c, descs[k - 1]) && descs[k - 1].elementClassName == name {
        if i: nat :| i < k - 1 && Offers(factories, c, descs[i]) && descs[i].elementClassName == name {
          var j := Least(factories, descs, c, name, k - 1, i);
        }
        assert FirstOffer(factories, descs, c, name, k, k - 1);
      }
      forall j: nat | FirstOffer(factories, descs, c, name, k, j)
        ensures name in Table(factories, descs, c, k) && Table(factories, descs, c, k)[name] == Some(descs[j])
      {
        if j < k - 1 {
          assert FirstOffer(factories, descs, c, name, k - 1, j);
        }
      }
    }
  }

  lemma {:induction false} Least(factories: FactoryMap, descs: seq<ElementDescriptor>,
                                 c: ClassId, name: string, k: nat, i: nat)
      returns (j: nat)
    requires i < k <= |descs| && Offers(factories, c, descs[i]) && descs[i].elementClassName == name
    ensures FirstOffer(factories, descs, c, name, k, j)
    decreases i
  {
    if j' :| 0 <= j' < i && Offers(factories, c, descs[j']) && descs[j'].elementClassName == name {
      j := Least(factories, descs, c, name, k, j');
    } else {
      j := i;
    }
  }

  /** Registering a descriptor again changes nothing. */
  lemma {:induction false} RegisterAgain(factories: FactoryMap, descs: seq<ElementDescriptor>,
                                         c: ClassId, k: nat, i: nat)
    requires i < k <= |descs| && Named(factories, descs[i]) == Some(c)
    ensures Register(Table(factories, descs, c, k), descs[i]) == Table(factories, descs, c, k)
  {
    if i < k - 1 {
      RegisterAgain(factories, descs, c, k - 1, i);
    }
  }

  /** Registering in a map with null pointers that are not in the way. */
  lemma LiveRegister(m: ElementMap, d: ElementDescriptor)
    ensures Register(Live(m), d) == Live(m) ==> Register(m, d) == m
    ensures Clean(m) ==> Clean(Register(m, d)) && Live(Register(m, d)) == Register(Live(m), d)
  {
  }

  lemma LiveEmpty()
    ensures Clean(map[]) && Live(map[]) == map[]
  {
  }

  lemma {:induction false} TableOfUnnamed(factories: FactoryMap, descs: seq<ElementDescriptor>, c: ClassId, k: nat)
    requires k <= |descs| && forall j :: 0 <= j < k ==> Named(factories, descs[j]) != Some(c)
    ensures Table(factories, descs, c, k) == map[]
  {
    if k > 0 {
      TableOfUnnamed(factories, descs, c, k - 1);
    }
  }

  lemma {:induction false} TableIgnoresNull(factories: FactoryMap, name: string,
                                            descs: seq<ElementDescriptor>, c: ClassId, k: nat)
    requires k <= |descs|
    ensures Table(Subscript(factories, name), descs, c, k) == Table(factories, descs, c, k)
  {
    if k > 0 {
      TableIgnoresNull(factories, name, descs, c, k - 1);
    }
  }

  lemma {:induction false} SubsetSize<T>(a: set<T>, b: set<T>)
    requires a <= b
    ensures |a| <= |b|
  {
    if x :| x in a {
      SubsetSize(a - {x}, b - {x});
    }
  }

  /** A registration whose `init` fails touches nothing. */
  predicate Touches(e: FactoryEvent, name: string) {
    match e
    case Lookup(n) => n == name
    case Registration(d) => d.factoryName == name && d.initResult == 0
  }

  predicate FirstTouch(events: seq<FactoryEvent>, name: string, i: nat) {
    i < |events| && Touches(events[i], name) && forall j :: 0 <= j < i ==> !Touches(events[j], name)
  }

  /** What the first event that touches a name leaves in the map. */
  function Left(e: FactoryEvent): Option<ClassId> {
    match e
    case Lookup(_) => None
    case Registration(d) => Some(d.factoryClass)
  }

  lemma {:induction false} UntouchedIsMissing(events: seq<FactoryEvent>, name: string)
    requires forall j :: 0 <= j < |events| ==> !Touches(events[j], name)
    ensures name !in Replay(events)
  {
    if events != [] {
      UntouchedIsMissing(events[..|events| - 1], name);
    }
  }

  lemma {:induction false} FirstTouchDecides(events: seq<FactoryEvent>, name: string, i: nat)
    requires FirstTouch(events, name, i)
    ensures name in Replay(events) && Replay(events)[name] == Left(events[i])
  {
    var front := events[..|events| - 1];
    if i == |events| - 1 {
      UntouchedIsMissing(front, name);
    } else {
      assert FirstTouch(front, name, i);
      FirstTouchDecides(front, name, i);
    }
  }

  lemma {:induction false} SomeFirstTouch(events: seq<FactoryEvent>, name: string, k: nat) returns (i: nat)
    requires k < |events| && Touches(events[k], name)
    ensures FirstTouch(events, name, i)
  {
    if j :| 0 <= j < k && Touches(events[j], name) {
      i := SomeFirstTouch(events, name, j);
    } else {
      i := k;
    }
  }

  /** Over all sequences of lookups and registrations: a factory is available at the end if and only if
      the first event that touched its name was a successful registration, whose class it then is. */
  lemma AvailableIffRegisteredFirst(events: seq<FactoryEvent>, name: string)
    ensures ClassOf(Replay(events), name).Some? <==>
            exists i: nat :: FirstTouch(events, name, i) && events[i].Registration?
    ensures forall i: nat :: FirstTouch(events, name, i) && events[i].Registration? ==>
              ClassOf(Replay(events), name) == Some(events[i].d.factoryClass)
  {
    if k: nat :| k < |events| && Touches(events[k], name) {
      var i := SomeFirstTouch(events, name, k);
      FirstTouchDecides(events, name, i);
      forall j: nat | FirstTouch(events, name, j)
        ensures j == i
      {
      }
    } else {
      UntouchedIsMissing(events, name);
    }
  }

  /** So a name looked up before anything registered it stays without a factory for ever. */
  lemma EarlyLookupBlocksForever(before: seq<FactoryEvent>, name: string, after: seq<FactoryEvent>)
    requires forall j :: 0 <= j < |before| ==> !Touches(before[j], name)
    ensures ClassOf(Replay(before + [Lookup(name)] + after), name) == None
  {
    var events := before + [Lookup(name)] + after;
    assert events[|before|] == Lookup(name) && forall j :: 0 <= j < |before| ==> events[j] == before[j];
    FirstTouchDecides(events, name, |before|);
  }

  /** A new name changes no table of descriptors whose factories are all registered. */
  lemma {:induction false} TableIgnoresNewName(factories: FactoryMap, d: FactoryDescriptor,
                                               descs: seq<ElementDescriptor>, c: ClassId, k: nat)
    requires k <= |descs| && forall j :: 0 <= j < k ==> Named(factories, descs[j]).Some?
    ensures Table(Insert(factories, d), descs, c, k) == Table(factories, descs, c, k)
  {
    if k > 0 {
      TableIgnoresNewName(factories, d, descs, c, k - 1);
    }
  }

  /** The maps of the existing instances. */
  type Instances = map<ClassId, ElementMap>

  /** The first `k` descriptors name existing instances. */
  ghost predicate Instantiated(factories: FactoryMap, descs: seq<ElementDescriptor>, instances: Instances, k: nat) {
    forall j :: 0 <= j < k && j < |descs| ==>
      Named(factories, descs[j]).Some? && Named(factories, descs[j]).value in instances
  }

  /** Every existing instance holds exactly the registrations of the first `k` descriptors, null
      pointers aside. */
  ghost predicate Filled(factories: FactoryMap, descs: seq<ElementDescriptor>, instances: Instances, k: nat) {
    && k <= |descs| && Instantiated(factories, descs, instances, k)
    && forall c :: c in instances ==> Live(instances[c]) == Table(factories, descs, c, k)
  }

  /** Only `createElementByName` leaves null pointers in an instance's map. */
  ghost predicate NoNulls(instances: Instances) {
    forall c :: c in instances ==> Clean(instances[c])
  }

  /** Registering descriptor `i` again leaves all maps as they are. */
  lemma FilledAgain(factories: FactoryMap, descs: seq<ElementDescriptor>, instances: Instances,
                    k: nat, i: nat, c: ClassId)
    requires Filled(factories, descs, instances, k) && i < k && c in instances && Named(factories, descs[i]) == Some(c)
    ensures var after := instances[c := Register(instances[c], descs[i])];
            after == instances && after.Keys == instances.Keys
  {
    RegisterAgain(factories, descs, c, k, i);
    LiveRegister(instances[c], descs[i]);
  }

  /** Registering the next descriptor extends the prefix. */
  lemma FilledNext(factories: FactoryMap, descs: seq<ElementDescriptor>, instances: Instances, k: nat, c: ClassId)
    requires Filled(factories, descs, instances, k) && k < |descs| && NoNulls(instances)
    requires c in instances && Named(factories, descs[k]) == Some(c)
    ensures var after := instances[c := Register(instances[c], descs[k])];
            Filled(factories, descs, after, k + 1) && NoNulls(after) && after.Keys == instances.Keys
  {
    var after := instances[c := Register(instances[c], descs[k])];
    LiveRegister(instances[c], descs[k]);
    forall other | other in after
      ensures Live(after[other]) == Table(factories, descs, other, k + 1)
    {
      assert Live(instances[other]) == Table(factories, descs, other, k);
    }
  }

  lemma OneMore(classes: set<ClassId>, instances: Instances, c: ClassId)
    requires c in classes && c !in instances
    ensures var after := instances[c := map[]];
            && |after| == |instances| + 1
            && classes - after.Keys == classes - instances.Keys - {c}
            && |classes - after.Keys| == |classes - instances.Keys| - 1
  {
    assert instances[c := map[]].Keys == instances.Keys + {c};
  }

  /** A new instance is complete while no registered descriptor names it. */
  lemma FilledNew(factories: FactoryMap, descs: seq<ElementDescriptor>, instances: Instances, k: nat, c: ClassId)
    requires Filled(factories, descs, instances, k) && c !in instances
    ensures Filled(factories, descs, instances[c := map[]], k)
    ensures NoNulls(instances) ==> NoNulls(instances[c := map[]])
  {
    TableOfUnnamed(factories, descs, c, k);
    LiveEmpty();
  }

  /** The static state: the map of factories, the list of element descriptors, the flag `isInit`, and
      the instances that exist with their maps. */
  class Registry {
    var factories: FactoryMap
    var descriptors: seq<ElementDescriptor>
    var isInit: bool
    var instances: Instances
    /** History: how many descriptors have been registered, and how often one of them was, whichever it is. */
    ghost var mark: nat
    ghost const watched: nat
    ghost var calls: int

    /** The factories without an instance. */
    ghost function Missing(): set<ClassId>
      reads this`factories, this`instances
    {
      Classes(factories) - instances.Keys
    }

    ghost predicate Valid()
      reads this`factories, this`descriptors, this`instances, this`isInit, this`mark
    {
      && (watched < |descriptors| || descriptors == [])
      && mark <= |descriptors| && Filled(factories, descriptors, instances, mark)
      && (if isInit then mark == |descriptors| else NoNulls(instances))
    }

    /** What stays as it is while the factories initialise each other. */
    twostate predicate Extends()
      reads this
    {
      && descriptors == old(descriptors)
      && old(instances.Keys) <= instances.Keys
      && old(mark) <= mark
    }

    /** Static initialisation: every `REGISTER_FACTORY` and `REGISTER_ELEMENT` of the program. */
    constructor (factoryDescs: seq<FactoryDescriptor>, elementDescs: seq<ElementDescriptor>, ghost watched: nat)
      requires watched < |elementDescs| || elementDescs == []
      ensures Valid() && !isInit && instances == map[]
      ensures factories == Replay(Registrations(factoryDescs)) && descriptors == elementDescs && this.watched == watched
    {
      factories, descriptors, isInit, instances := map[], [], false, map[];
      this.watched, mark, calls := watched, 0, 0;
      new;
      for i := 0 to |factoryDescs|
        invariant factories == Replay(Registrations(factoryDescs[..i]))
        invariant descriptors == [] && mark == 0 && !isInit && instances == map[]
      {
        assert Registrations(factoryDescs[..i + 1])[..i] == Registrations(factoryDescs[..i]);
        factories := Insert(factories, factoryDescs[i]);
      }
      assert factoryDescs[..|factoryDescs|] == factoryDescs;
      for i := 0 to |elementDescs|
        invariant descriptors == elementDescs[..i]
        invariant factories == Replay(Registrations(factoryDescs)) && mark == 0 && !isInit && instances == map[]
      {
        descriptors := descriptors + [elementDescs[i]];
      }
    }

    /** `registerFactory`, at any time. */
    method RegisterFactory(d: FactoryDescriptor) returns (status: int)
      requires Valid()
      modifies this`factories
      ensures Valid() && factories == Touch(old(factories), Registration(d))
      ensures status == if d.initResult != 0 then -1 else 0
    {
      if d.initResult != 0 {
        return -1;
      }
      forall c | c in instances
        ensures Table(Insert(factories, d), descriptors, c, mark) == Live(instances[c])
      {
        TableIgnoresNewName(factories, d, descriptors, c, mark);
      }
      factories := Insert(factories, d);
      return 0;
    }

    /** `registerElement` of descriptor `i` on the instance of `c`. */
    method RegisterElement(c: ClassId, i: nat)
      requires Valid() && i <= mark && i < |descriptors|
      requires c in instances && Named(factories, descriptors[i]) == Some(c)
      modifies this`instances, this`mark, this`calls
      ensures Valid() && Extends() && instances.Keys == old(instances.Keys)
      ensures mark == if i == old(mark) then i + 1 else old(mark)
      ensures calls == old(calls) + if i == watched then 1 else 0
    {
      if i < mark {
        FilledAgain(factories, descriptors, instances, mark, i, c);
      } else {
        FilledNext(factories, descriptors, instances, mark, c);
        mark := mark + 1;
      }
      instances := instances[c := Register(instances[c], descriptors[i])];
      if i == watched {
        calls := calls + 1;
      }
    }

    /** The body of the loop in `init`: `getFactoryInstanceByName(...)->registerElement(...)`. */
    method RegisterNext(i: nat) returns (ok: bool)
      requires Valid() && i < |descriptors| && i <= mark
      modifies this
      ensures ok ==> Valid() && Extends() && factories == old(factories) && i < mark
      ensures ok ==> Named(factories, descriptors[i]).Some?
      ensures !ok ==> !AllNamed(old(factories), old(descriptors))
      ensures ok ==> calls == old(calls) + |instances| - |old(instances)| + if i == watched then 1 else 0
      ensures ok && |instances| > |old(instances)| ==> isInit && AllNamed(old(factories), old(descriptors))
      ensures Missing() <= old(Missing())
      ensures ok ==> instances.Keys <= old(instances.Keys) + NamedClasses(factories, descriptors)
      decreases |Missing()|, 2
    {
      var c, found := GetFactoryInstanceByName(descriptors[i].factoryName);
      if !found || c.None? {
        return false;
      }
      RegisterElement(c.value, i);
      return true;
    }

    /** `init` on an instance that has just been created; `ok` is false when it would call
        `registerElement` on a null pointer. */
    method Init() returns (ok: bool)
      requires Valid()
      modifies this
      ensures old(isInit) ==> ok && unchanged(this)
      ensures !old(isInit) ==> (ok <==> AllNamed(old(factories), old(descriptors)))
      ensures ok ==> Valid() && isInit && Extends() && factories == old(factories)
      ensures ok && !old(isInit) ==>
                calls == old(calls) + |instances| - |old(instances)| + if descriptors == [] then 0 else 1
      ensures Missing() <= old(Missing())
      ensures ok ==> instances.Keys <= old(instances.Keys) + NamedClasses(factories, descriptors)
      decreases |Missing()|, 4
    {
      if isInit {
        return true;
      }
      ok := RegisterAll();
      if ok {
        isInit := true;
      }
    }

    /** The loop of `init`. */
    method RegisterAll() returns (ok: bool)
      requires Valid()
      modifies this
      ensures ok <==> AllNamed(old(factories), old(descriptors))
      ensures ok ==> Valid() && Extends() && factories == old(factories) && mark == |descriptors|
      ensures ok ==> calls == old(calls) + |instances| - |old(instances)| + if descriptors == [] then 0 else 1
      ensures Missing() <= old(Missing())
      ensures ok ==> instances.Keys <= old(instances.Keys) + NamedClasses(factories, descriptors)
      decreases |Missing()|, 3
    {
      var i := 0;
      while i < |descriptors|
        invariant i <= mark && Valid() && Extends() && factories == old(factories)
        invariant Missing() <= old(Missing())
        invariant instances.Keys <= old(instances.Keys) + NamedClasses(factories, descriptors)
        invariant calls == old(calls) + |instances| - |old(instances)| + if watched < i then 1 else 0
      {
        SubsetSize(Missing(), old(Missing()));
        var registered := RegisterNext(i);
        if !registered {
          return false;
        }
        i := i + 1;
      }
      return true;
    }

    /** The class's `getInstance`: `_instance` is assigned before `init` runs. */
    method GetInstance(c: ClassId) returns (ok: bool)
      requires Valid() && (c in instances || c in Missing())
      modifies this
      ensures c in old(instances) ==> ok && unchanged(this)
      ensures c !in old(instances) && !old(isInit) ==> (ok <==> AllNamed(old(factories), old(descriptors)))
      ensures c !in old(instances) && old(isInit) ==> ok
      ensures ok ==> Valid() && Extends() && c in instances && factories == old(factories)
      ensures ok && c !in old(instances) ==> isInit
      ensures ok && c !in old(instances) && descriptors != [] ==>
                calls == old(calls) + if old(isInit) then 0 else |instances| - |old(instances)|
      ensures Missing() <= old(Missing())
      ensures ok ==> instances.Keys <= old(instances.Keys) + {c} + NamedClasses(factories, descriptors)
      decreases |Missing()|, 0
    {
      if c in instances {
        return true;
      }
      Create(c);
      ok := Init();
    }

    /** `_instance = new ...`. */
    method Create(c: ClassId)
      requires Valid() && c !in instances && c in Missing()
      modifies this`instances
      ensures Valid() && instances == old(instances)[c := map[]] && |instances| == |old(instances)| + 1
      ensures Missing() == old(Missing()) - {c} && |Missing()| == |old(Missing())| - 1
    {
      FilledNew(factories, descriptors, instances, mark, c);
      OneMore(Classes(factories), instances, c);
      instances := instances[c := map[]];
    }

    /** Returns a null pointer (`None`) for a name without a factory; `ok` is false when initialisation
        fails inside. */
    method GetFactoryInstanceByName(name: string) returns (instance: Option<ClassId>, ok: bool)
      requires Valid()
      modifies this
      ensures instance == ClassOf(old(factories), name)
      ensures ok ==> factories == Touch(old(factories), Lookup(name))
      ensures ClassOf(old(factories), name).None? ==>
                && ok && Valid() && Extends()
                && instances == old(instances) && isInit == old(isInit) && calls == old(calls)
      ensures ok && instance.Some? ==> Valid() && Extends() && instance.value in instances
      ensures instance.Some? && instance.value in old(instances) ==> ok && unchanged(this)
      ensures instance.Some? && instance.value !in old(instances) ==>
                && (ok <==> old(isInit) || AllNamed(old(factories), old(descriptors)))
                && (ok ==> isInit)
                && (ok && descriptors != [] ==>
                      calls == old(calls) + if old(isInit) then 0 else |instances| - |old(instances)|)
      ensures Missing() <= old(Missing())
      ensures ok && instance.Some? ==>
                instances.Keys <= old(instances.Keys) + {instance.value} + NamedClasses(factories, descriptors)
      decreases |Missing()|, 1
    {
      instance := ClassOf(factories, name);
      if instance.Some? {
        ok := GetInstance(instance.value);
      } else {
        forall c | c in instances
          ensures Table(Subscript(factories, name), descriptors, c, mark) == Live(instances[c])
        {
          TableIgnoresNull(factories, name, descriptors, c, mark);
        }
        factories := Subscript(factories, name);
        ok := true;
      }
    }

    /** `d` is the first descriptor, in the order of registration, that offers `name` in `c`; `None` if none does. */
    ghost predicate IsFirst(c: ClassId, name: string, d: Option<ElementDescriptor>)
      reads this`factories, this`descriptors
    {
      && (forall j: nat :: FirstOffer(factories, descriptors, c, name, |descriptors|, j) ==> d == Some(descriptors[j]))
      && (d.None? <==> forall j :: 0 <= j < |descriptors| ==>
            !(Offers(factories, c, descriptors[j]) && descriptors[j].elementClassName == name))
    }

    lemma TableIsFirst(c: ClassId, name: string)
      ensures IsFirst(c, name, Entry(Table(factories, descriptors, c, |descriptors|), name))
    {
      var n := |descriptors|;
      var t := Table(factories, descriptors, c, n);
      TableIsFirstOffer(factories, descriptors, c, name, n);
      if j: nat :| j < n && Offers(factories, c, descriptors[j]) && descriptors[j].elementClassName == name {
        var first := Least(factories, descriptors, c, name, n, j);
      }
    }

    /** `createElementByName`: the descriptor whose element is created, or a null pointer. A miss
        leaves a null entry behind, which no later lookup can tell from a missing one. */
    method CreateElementByName(c: ClassId, name: string) returns (d: Option<ElementDescriptor>)
      requires Valid() && isInit && c in instances
      modifies this`instances
      ensures Valid() && instances.Keys == old(instances.Keys) && |instances| == |old(instances)|
      ensures IsFirst(c, name, d)
    {
      TableIsFirst(c, name);
      d := Entry(instances[c], name);
      assert d == Entry(Live(instances[c]), name);
      if name !in instances[c] {
        assert Live(instances[c][name := None]) == Live(instances[c]);
        instances := instances[c := instances[c][name := None]];
      }
    }

    /** The first request of the program, for any factory: it fails exactly when some descriptor names no
        factory, and otherwise finds the first descriptor that offers the class, having registered every
        descriptor once for each factory instance it created. */
    method FirstLookup(factoryName: string, className: string)
        returns (instance: Option<ClassId>, d: Option<ElementDescriptor>, ok: bool)
      requires Valid() && !isInit && instances == map[] && ClassOf(factories, factoryName).Some?
      modifies this
      ensures instance == ClassOf(old(factories), factoryName)
      ensures ok <==> AllNamed(old(factories), old(descriptors))
      ensures ok ==> factories == old(factories) && descriptors == old(descriptors)
      ensures ok ==> Valid() && isInit && IsFirst(instance.value, className, d)
      ensures ok ==> instance.value in instances && Instantiated(factories, descriptors, instances, |descriptors|)
      ensures ok ==> instances.Keys == {instance.value} + NamedClasses(factories, descriptors)
      ensures ok && descriptors != [] ==> calls == old(calls) + |instances|
    {
      d := None;
      instance, ok := GetFactoryInstanceByName(factoryName);
      if ok {
        assert NamedClasses(factories, descriptors) <= instances.Keys;
        d := CreateElementByName(instance.value, className);
      }
    }
  }
}
