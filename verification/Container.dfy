/** The dependency injection container (fastapi_modular/core/container.py):
    memoised construction with a building stack, two lifetimes, lazy edges and
    ordered teardown. Providers and their parameters are plain data. */
module Container {
  import opened Wrappers

  datatype Scope = SINGLETON | REQUEST

  /** What `resolve` is asked for: a provider name and its type arguments,
      which together are the key of the store. */
  datatype Token = Token(name: string, args: seq<string>)

  /** A constructor parameter after the type arguments. */
  datatype Param = Param(annotated: bool, dep: Token, isLazy: bool, hasDefault: bool)

  datatype Provider = Provider(scope: Scope, params: seq<Param>, raises: bool)

  datatype Registry = Registry(providers: map<string, Provider>, entities: set<string>)

  /** What a parameter received: its own default, a lazy proxy, or an instance. */
  datatype Wire = Default | Proxy(name: string) | Direct(serial: nat)

  datatype Instance = Instance(serial: nat, wiring: seq<Wire>)

  /** A dict of instances with its insertion order. */
  datatype Store = Store(built: map<Token, Instance>, order: seq<Token>)

  const EMPTY := Store(map[], [])

  datatype Error =
    | NoRequestScope | NoProvider | CycleFound | UnknownType
    | MissingAnnotation | ScopeLeak | ConstructorRaised

  // ------------------------------------------------- the dependency graph

  function ScopeOf(reg: Registry, name: string): Scope {
    if name in reg.providers then reg.providers[name].scope else SINGLETON
  }

  predicate IsKnown(reg: Registry, name: string) {
    name in reg.providers || name in reg.entities
  }

  /** A default stands in for a type that nobody registered. */
  predicate Skipped(reg: Registry, p: Param) {
    p.hasDefault && (!p.annotated || !IsKnown(reg, p.dep.name))
  }

  /** Resolved while the owner is being built. */
  predicate IsEager(reg: Registry, p: Param) {
    p.annotated && !Skipped(reg, p) && !p.isLazy
  }

  predicate ParamOk(reg: Registry, scope: Scope, p: Param) {
    && (p.annotated || p.hasDefault)
    && !(IsEager(reg, p) && scope == SINGLETON && ScopeOf(reg, p.dep.name) == REQUEST)
  }

  /** Nothing is wrong with this provider taken alone. */
  predicate NodeOk(reg: Registry, open: bool, t: Token) {
    && (ScopeOf(reg, t.name) == REQUEST ==> open)
    && t.name in reg.providers
    && (forall a :: a in t.args ==> IsKnown(reg, a))
    && (forall p :: p in reg.providers[t.name].params ==> ParamOk(reg, reg.providers[t.name].scope, p))
    && !reg.providers[t.name].raises
  }

  ghost predicate DependsOn(reg: Registry, t: Token, d: Token) {
    t.name in reg.providers && exists p :: p in reg.providers[t.name].params && IsEager(reg, p) && p.dep == d
  }

  ghost predicate IsPath(reg: Registry, path: seq<Token>) {
    |path| >= 1 && forall k :: 0 <= k < |path| - 1 ==> DependsOn(reg, path[k], path[k + 1])
  }

  /** Along every chain of eager dependencies from t, no provider repeats and
      each is fine taken alone. */
  ghost predicate Resolvable(reg: Registry, open: bool, t: Token) {
    forall path :: IsPath(reg, path) && path[0] == t ==>
      path[|path| - 1] !in path[..|path| - 1] && NodeOk(reg, open, path[|path| - 1])
  }

  /** A chain from t that ends in a faulty provider, in a provider under
      construction, or in one the chain already met. */
  ghost predicate IsFault(reg: Registry, open: bool, building: seq<Token>, t: Token, path: seq<Token>) {
    && IsPath(reg, path) && path[0] == t
    && (!NodeOk(reg, open, path[|path| - 1]) || path[|path| - 1] in building + path[..|path| - 1])
  }

  /** All tokens that any parameter names. */
  function Named(reg: Registry): set<Token> {
    set name, i | name in reg.providers && 0 <= i < |reg.providers[name].params| :: reg.providers[name].params[i].dep
  }

  /** How many named tokens are not under construction. */
  function Left(reg: Registry, building: seq<Token>): nat {
    |Named(reg) - set b | b in building|
  }

  lemma LeftFalls(reg: Registry, building: seq<Token>, t: Token)
    requires t !in building
    ensures Left(reg, building + [t]) == Left(reg, building) - if t in Named(reg) then 1 else 0
  {
    var before, after := Named(reg) - (set b | b in building), Named(reg) - (set b | b in building + [t]);
    if t in Named(reg) {
      assert before == after + {t};
    } else {
      assert before == after;
    }
  }

  // ---------------------------------------------------------- the stores

  ghost predicate StoreOk(s: Store) {
    && (forall t :: t in s.built <==> t in s.order)
    && (forall i, j :: 0 <= i < j < |s.order| ==> s.built[s.order[i]].serial < s.built[s.order[j]].serial)
  }

  function Lookup(reg: Registry, singletons: Store, request: Option<Store>, t: Token): Option<Instance> {
    if ScopeOf(reg, t.name) == SINGLETON then
      if t in singletons.built then Some(singletons.built[t]) else None
    else if request.Some? && t in request.value.built then Some(request.value.built[t])
    else None
  }

  /** The parameter received what its declaration asks for; an eager one, the
      very instance that the store holds, built before its owner. */
  ghost predicate WiredRight(reg: Registry, singletons: Store, request: Option<Store>, p: Param, w: Wire,
      before: nat) {
    if Skipped(reg, p) then w == Default
    else if p.isLazy then w == Proxy(p.dep.name)
    else
      var d := Lookup(reg, singletons, request, p.dep);
      d.Some? && w == Direct(d.value.serial) && d.value.serial < before
  }

  ghost predicate BuiltRight(reg: Registry, singletons: Store, request: Option<Store>, t: Token, b: Instance) {
    && NodeOk(reg, request.Some?, t)
    && |b.wiring| == |reg.providers[t.name].params|
    && forall i :: 0 <= i < |b.wiring| ==>
         WiredRight(reg, singletons, request, reg.providers[t.name].params[i], b.wiring[i], b.serial)
  }

  /** If t is stored, it was built right. */
  ghost predicate StoredRight(reg: Registry, singletons: Store, request: Option<Store>, next: nat, t: Token) {
    var b := Lookup(reg, singletons, request, t);
    b.Some? ==> b.value.serial < next && BuiltRight(reg, singletons, request, t, b.value)
  }

  ghost predicate Sound(reg: Registry, singletons: Store, request: Option<Store>, next: nat) {
    && StoreOk(singletons) && (request.Some? ==> StoreOk(request.value))
    && (forall t :: t in singletons.built ==> ScopeOf(reg, t.name) == SINGLETON)
    && (request.Some? ==> forall t :: t in request.value.built ==> ScopeOf(reg, t.name) == REQUEST)
    && forall t :: StoredRight(reg, singletons, request, next, t)
  }

  /** Stores only grow, at the end. */
  ghost predicate Grows(a: Store, b: Store) {
    a.order <= b.order && forall t :: t in a.built ==> t in b.built && b.built[t] == a.built[t]
  }

  ghost predicate GrowsOption(a: Option<Store>, b: Option<Store>) {
    a.Some? == b.Some? && (a.Some? ==> Grows(a.value, b.value))
  }

  /** Whatever b holds and a does not was made when this many instances existed,
      or later. */
  ghost predicate NewSince(a: Store, b: Store, made: nat) {
    forall t :: t in b.built && t !in a.built ==> b.built[t].serial >= made
  }

  ghost predicate AllNewSince(s0: Store, r0: Option<Store>, s: Store, r: Option<Store>, made: nat) {
    NewSince(s0, s, made) && (r0.Some? && r.Some? ==> NewSince(r0.value, r.value, made))
  }

  /** How many instances are stored. */
  function Count(singletons: Store, request: Option<Store>): nat {
    |singletons.order| + if request.Some? then |request.value.order| else 0
  }

  /** Along a chain from a stored token every token is stored, earlier and earlier. */
  lemma {:induction false} ChainIsStored(reg: Registry, singletons: Store, request: Option<Store>, next: nat,
      path: seq<Token>, k: nat)
    requires Sound(reg, singletons, request, next) && IsPath(reg, path) && k < |path|
    requires Lookup(reg, singletons, request, path[0]).Some?
    ensures var first, kth := Lookup(reg, singletons, request, path[0]), Lookup(reg, singletons, request, path[k]);
      kth.Some? && kth.value.serial + k <= first.value.serial
  {
    if k > 0 {
      ChainIsStored(reg, singletons, request, next, path, k - 1);
      assert DependsOn(reg, path[k - 1], path[k]);
      StoredDependency(reg, singletons, request, next, path[k - 1], path[k]);
    }
  }

  lemma StoredDependency(reg: Registry, singletons: Store, request: Option<Store>, next: nat, t: Token, d: Token)
    requires Sound(reg, singletons, request, next) && DependsOn(reg, t, d)
    requires Lookup(reg, singletons, request, t).Some?
    ensures Lookup(reg, singletons, request, d).Some?
    ensures Lookup(reg, singletons, request, d).value.serial < Lookup(reg, singletons, request, t).value.serial
  {
    var params := reg.providers[t.name].params;
    var p :| p in params && IsEager(reg, p) && p.dep == d;
    var i :| 0 <= i < |params| && params[i] == p;
    var b := Lookup(reg, singletons, request, t).value;
    assert StoredRight(reg, singletons, request, next, t);
    assert WiredRight(reg, singletons, request, params[i], b.wiring[i], b.serial);
  }

  /** Whatever is stored is resolvable: no cycle can have entered a store. */
  lemma StoredIsResolvable(reg: Registry, singletons: Store, request: Option<Store>, next: nat, t: Token)
    requires Sound(reg, singletons, request, next) && Lookup(reg, singletons, request, t).Some?
    ensures Resolvable(reg, request.Some?, t)
  {
    forall path | IsPath(reg, path) && path[0] == t
      ensures path[|path| - 1] !in path[..|path| - 1] && NodeOk(reg, request.Some?, path[|path| - 1])
    {
      var n := |path| - 1;
      ChainIsStored(reg, singletons, request, next, path, n);
      assert StoredRight(reg, singletons, request, next, path[n]);
      forall k | 0 <= k < n ensures path[k] != path[n] {
        assert IsPath(reg, path[k..]) by {
          forall m | 0 <= m < |path[k..]| - 1 ensures DependsOn(reg, path[k..][m], path[k..][m + 1]) {
            assert DependsOn(reg, path[k + m], path[k + m + 1]);
          }
        }
        ChainIsStored(reg, singletons, request, next, path, k);
        ChainIsStored(reg, singletons, request, next, path[k..], n - k);
      }
    }
  }

  lemma FaultIsNotResolvable(reg: Registry, open: bool, t: Token, path: seq<Token>)
    requires IsFault(reg, open, [], t, path)
    ensures !Resolvable(reg, open, t)
  {
  }

  lemma FaultDeeper(reg: Registry, open: bool, building: seq<Token>, t: Token, d: Token, path: seq<Token>)
    requires DependsOn(reg, t, d) && IsFault(reg, open, building + [t], d, path)
    ensures IsFault(reg, open, building, t, [t] + path)
  {
    var longer := [t] + path;
    forall k | 0 <= k < |longer| - 1 ensures DependsOn(reg, longer[k], longer[k + 1]) {
      if k > 0 {
        assert DependsOn(reg, path[k - 1], path[k]);
      }
    }
    assert longer[..|longer| - 1] == [t] + path[..|path| - 1];
  }

  lemma BuiltRightKept(reg: Registry, s0: Store, r0: Option<Store>, s: Store, r: Option<Store>, t: Token, b: Instance)
    requires Grows(s0, s) && GrowsOption(r0, r) && BuiltRight(reg, s0, r0, t, b)
    ensures BuiltRight(reg, s, r, t, b)
  {
  }

  lemma AppendIsOk(s: Store, t: Token, b: Instance)
    requires StoreOk(s) && t !in s.built && forall u :: u in s.built ==> s.built[u].serial < b.serial
    ensures var s' := Store(s.built[t := b], s.order + [t]); StoreOk(s') && Grows(s, s')
  {
  }

  lemma PutGrows(reg: Registry, singletons: Store, request: Option<Store>, next: nat, t: Token, b: Instance)
    requires Sound(reg, singletons, request, next) && Lookup(reg, singletons, request, t).None?
    requires b.serial == next && (ScopeOf(reg, t.name) == REQUEST ==> request.Some?)
    ensures var put := Put(reg, singletons, request, t, b);
      && StoreOk(put.0) && (put.1.Some? ==> StoreOk(put.1.value)) && Grows(singletons, put.0)
        && GrowsOption(request, put.1)
      && Count(put.0, put.1) == Count(singletons, request) + 1
      && forall u :: Lookup(reg, put.0, put.1, u) == if u == t then Some(b) else Lookup(reg, singletons, request, u)
  {
    var changed := if ScopeOf(reg, t.name) == SINGLETON then singletons else request.value;
    forall u | u in changed.built ensures changed.built[u].serial < next {
      assert StoredRight(reg, singletons, request, next, u);
    }
    AppendIsOk(changed, t, b);
  }

  /** Storing a freshly built instance keeps the stores sound. */
  lemma StoringIsSound(reg: Registry, singletons: Store, request: Option<Store>, next: nat, t: Token,
      wiring: seq<Wire>)
    requires Sound(reg, singletons, request, next) && Lookup(reg, singletons, request, t).None?
    requires BuiltRight(reg, singletons, request, t, Instance(next, wiring))
    ensures var put := Put(reg, singletons, request, t, Instance(next, wiring)); Sound(reg, put.0, put.1, next + 1)
  {
    var b, after := Instance(next, wiring), next + 1;
    PutGrows(reg, singletons, request, next, t, b);
    var (s, r) := Put(reg, singletons, request, t, b);
    forall u ensures StoredRight(reg, s, r, after, u) {
      if u == t {
        BuiltRightKept(reg, singletons, request, s, r, t, b);
      } else if Lookup(reg, s, r, u).Some? {
        assert StoredRight(reg, singletons, request, next, u);
        BuiltRightKept(reg, singletons, request, s, r, u, Lookup(reg, s, r, u).value);
      }
    }
  }

  lemma KeptRight(reg: Registry, singletons: Store, request: Option<Store>, next: nat, building: seq<Token>,
      t: Token, wiring: seq<Wire>)
    requires Sound(reg, singletons, request, next) && Lookup(reg, singletons, request, t).None? && t !in building
    requires BuiltRight(reg, singletons, request, t, Instance(next, wiring))
    requires forall u :: u in building ==> Lookup(reg, singletons, request, u).None?
    ensures var b := Instance(next, wiring); var put := Put(reg, singletons, request, t, b);
      && Sound(reg, put.0, put.1, next + 1) && Lookup(reg, put.0, put.1, t) == Some(b)
      && Grows(singletons, put.0) && GrowsOption(request, put.1) && (request.Some? <==> put.1.Some?)
      && AllNewSince(singletons, request, put.0, put.1, next)
      && Count(put.0, put.1) == Count(singletons, request) + 1
      && forall u :: u in building ==> Lookup(reg, put.0, put.1, u).None?
  {
    PutGrows(reg, singletons, request, next, t, Instance(next, wiring));
    StoringIsSound(reg, singletons, request, next, t, wiring);
  }

  function Put(reg: Registry, singletons: Store, request: Option<Store>, t: Token, b: Instance): (Store,
      Option<Store>) {
    if ScopeOf(reg, t.name) == SINGLETON then
      (Store(singletons.built[t := b], singletons.order + [t]), request)
    else if request.Some? then
      (singletons, Some(Store(request.value.built[t := b], request.value.order + [t])))
    else (singletons, request)
  }

  // ---------------------------------------------------------- the lifetimes

  /** The instance stands in the store that the declared scope asks for, and in
      no other. */
  ghost predicate StoredByScope(scope: Scope, singletons: Store, request: Option<Store>, t: Token, b: Instance) {
    match scope
    case SINGLETON => t in singletons.built && singletons.built[t] == b && (request.Some? ==> t !in request.value.built)
    case REQUEST =>
      t !in singletons.built && request.Some? && t in request.value.built && request.value.built[t] == b
  }

  /** Each store holds only instances whose provider declares its scope. */
  lemma StoresFollowScopes(reg: Registry, singletons: Store, request: Option<Store>, next: nat, t: Token)
    requires Sound(reg, singletons, request, next)
    ensures t in singletons.built ==> t.name in reg.providers && reg.providers[t.name].scope == SINGLETON
    ensures request.Some? && t in request.value.built ==>
      t.name in reg.providers && reg.providers[t.name].scope == REQUEST
  {
    assert StoredRight(reg, singletons, request, next, t);
  }

  // ------------------------------------------------------------- the hooks

  /** The hooks of a store, latest first, up to and including the first that
      raises. */
  ghost predicate IsHookRun(order: seq<Token>, raising: set<Token>, hooks: seq<Token>, failed: bool) {
    && |hooks| <= |order| && (forall i :: 0 <= i < |hooks| ==> hooks[i] == order[|order| - 1 - i])
    && (forall i :: 0 <= i < |hooks| ==> (hooks[i] in raising <==> failed && i == |hooks| - 1))
    && (if failed then hooks != [] else |hooks| == |order|)
  }

  method RunHooks(order: seq<Token>, raising: set<Token>) returns (hooks: seq<Token>, failed: bool)
    ensures IsHookRun(order, raising, hooks, failed)
  {
    hooks, failed := [], false;
    while |hooks| < |order| && !failed
      invariant |hooks| <= |order| && forall i :: 0 <= i < |hooks| ==> hooks[i] == order[|order| - 1 - i]
      invariant forall i :: 0 <= i < |hooks| ==> (hooks[i] in raising <==> failed && i == |hooks| - 1)
      invariant failed ==> hooks != []
      decreases |order| - |hooks|
    {
      var t := order[|order| - 1 - |hooks|];
      hooks := hooks + [t];
      failed := t in raising;
    }
  }

  // -------------------------------------------------------- the container

  class Container {
    const reg: Registry
    var singletons: Store
    var request: Option<Store>
    var building: seq<Token>
    var made: nat               // how many instances have been constructed

    constructor (reg: Registry)
      ensures this.reg == reg && Valid() && building == [] && request == None && singletons == EMPTY
    {
      this.reg := reg;
      singletons, request, building, made := EMPTY, None, [], 0;
    }

    ghost predicate Valid()
      reads this
    {
      && Sound(reg, singletons, request, made)
      && forall b :: b in building ==> Lookup(reg, singletons, request, b).None?
    }

    ghost predicate IsStored(t: Token)
      reads this
    {
      t in singletons.built || (request.Some? && t in request.value.built)
    }

    /** There is a provider for t and a store for its instance, but no instance. */
    ghost predicate IsMissing(t: Token)
      reads this
    {
      t.name in reg.providers && (reg.providers[t.name].scope == REQUEST ==> request.Some?) && !IsStored(t)
    }

    predicate Unregistered(name: string) {
      name !in reg.providers && name !in reg.entities
    }

    /** A singleton must not hold on to an instance of this request-scoped provider. */
    predicate Leaks(t: Token, p: Param) {
      && t.name in reg.providers && reg.providers[t.name].scope == SINGLETON && !p.isLazy
      && p.dep.name in reg.providers && reg.providers[p.dep.name].scope == REQUEST
    }

    /** Resolving from outside any construction succeeds exactly when the eager
        dependency graph below t has no cycle and no faulty provider. */
    method Provide(t: Token) returns (r: Result<Instance, Error>)
      requires Valid() && building == []
      modifies this
      ensures Valid() && building == []
      ensures Grows(old(singletons), singletons) && GrowsOption(old(request), request)
      ensures AllNewSince(old(singletons), old(request), singletons, request, old(made)) && old(made) <= made
      ensures r.Success? <==> Resolvable(reg, request.Some?, t)
      ensures r.Success? ==>
        t.name in reg.providers && StoredByScope(reg.providers[t.name].scope, singletons, request, t, r.value)
      ensures t.name in reg.providers && reg.providers[t.name].scope == REQUEST && request.None? ==> r.Failure?
      ensures t in old(singletons).built ==> r == Success(old(singletons).built[t])
      ensures old(request).Some? && t in old(request).value.built ==> r == Success(old(request).value.built[t])
      ensures r.Success? && old(!IsStored(t)) ==> r.value.serial >= old(made)
      ensures r.Success? ==> r.value.serial < made
      ensures old(made) <= made
    {
      ghost var fault;
      if t.name in reg.providers && Lookup(reg, singletons, request, t).Some? {
        StoredIsResolvable(reg, singletons, request, made, t);
      }
      r, fault := Resolve(t);
      assert StoredRight(reg, singletons, request, made, t);
      if r.Success? {
        StoredIsResolvable(reg, singletons, request, made, t);
      } else {
        FaultIsNotResolvable(reg, request.Some?, t, fault);
      }
    }

    /** A failure comes with a faulty chain. Success or failure, stores only
        grow, by exactly the instances constructed, and the building stack is
        as before. */
    method Resolve(t: Token) returns (r: Result<Instance, Error>, ghost fault: seq<Token>)
      requires Valid()
      modifies this
      ensures Valid() && building == old(building)
      ensures Grows(old(singletons), singletons) && GrowsOption(old(request), request)
      ensures AllNewSince(old(singletons), old(request), singletons, request, old(made)) && old(made) <= made
      ensures made - old(made) == Count(singletons, request) - old(Count(singletons, request))
      ensures r.Success? ==> Lookup(reg, singletons, request, t) == Some(r.value)
      ensures r.Failure? ==> IsFault(reg, request.Some?, building, t, fault)
      ensures old(IsStored(t)) ==> r.Success? && made == old(made)
      ensures t.name in reg.providers && reg.providers[t.name].scope == REQUEST && old(request).None? ==>
        r == Failure(NoRequestScope)
      ensures t.name !in reg.providers ==> r == Failure(NoProvider)
      ensures old(IsMissing(t)) && t in old(building) ==> r == Failure(CycleFound)
      ensures old(IsMissing(t)) && t !in old(building) && (exists a :: a in t.args && Unregistered(a)) ==>
        r == Failure(UnknownType)
      decreases Left(reg, building) + (if t in Named(reg) then 0 else 1), 1
    {
      StoresFollowScopes(reg, singletons, request, made, t);
      if ScopeOf(reg, t.name) == REQUEST && request.None? {
        return Failure(NoRequestScope), [t];
      }
      var cached := Lookup(reg, singletons, request, t);
      if cached.Some? {
        return Success(cached.value), [t];
      }
      if t.name !in reg.providers {
        return Failure(NoProvider), [t];
      }
      if t in building {
        return Failure(CycleFound), [t];
      }
      if exists a :: a in t.args && !IsKnown(reg, a) {
        return Failure(UnknownType), [t];
      }
      r, fault := Construct(t);
    }

    /** The part of `resolve` that builds: push, wire, construct, pop, store. */
    method Construct(t: Token) returns (r: Result<Instance, Error>, ghost fault: seq<Token>)
      requires Valid() && t.name in reg.providers && t !in building
      requires Lookup(reg, singletons, request, t).None? && (ScopeOf(reg, t.name) == REQUEST ==> request.Some?)
      requires forall a :: a in t.args ==> IsKnown(reg, a)
      modifies this
      ensures Valid() && building == old(building)
      ensures Grows(old(singletons), singletons) && GrowsOption(old(request), request)
      ensures AllNewSince(old(singletons), old(request), singletons, request, old(made)) && old(made) <= made
      ensures made - old(made) == Count(singletons, request) - old(Count(singletons, request))
      ensures r.Success? ==> Lookup(reg, singletons, request, t) == Some(r.value)
      ensures r.Failure? ==> IsFault(reg, request.Some?, building, t, fault)
      decreases Left(reg, building) + (if t in Named(reg) then 0 else 1), 0
    {
      LeftFalls(reg, building, t);
      ghost var outer := building;
      building := building + [t];
      var wiring;
      wiring, fault := BuildKwargs(t, outer);
      building := building[..|building| - 1];
      assert building == outer;
      if wiring.Failure? {
        return Failure(wiring.error), fault;
      }
      if reg.providers[t.name].raises {
        return Failure(ConstructorRaised), [t];
      }
      var b := Keep(t, wiring.value);
      return Success(b), [t];
    }

    /** `store[key] = instance`. */
    method Keep(t: Token, wiring: seq<Wire>) returns (b: Instance)
      requires Valid() && t !in building && Lookup(reg, singletons, request, t).None?
      requires BuiltRight(reg, singletons, request, t, Instance(made, wiring))
      modifies this`singletons, this`request, this`made
      ensures Valid() && b == Instance(old(made), wiring) && Lookup(reg, singletons, request, t) == Some(b)
      ensures Grows(old(singletons), singletons) && GrowsOption(old(request), request)
      ensures AllNewSince(old(singletons), old(request), singletons, request, old(made)) && old(made) <= made
      ensures made == old(made) + 1 && Count(singletons, request) == old(Count(singletons, request)) + 1
    {
      b := Instance(made, wiring);
      KeptRight(reg, singletons, request, made, building, t, wiring);
      var put := Put(reg, singletons, request, t, b);
      singletons, request, made := put.0, put.1, made + 1;
    }

    method BuildKwargs(t: Token, ghost outer: seq<Token>)
      returns (wiring: Result<seq<Wire>, Error>, ghost fault: seq<Token>)
      requires Valid() && t.name in reg.providers && building == outer + [t]
      requires ScopeOf(reg, t.name) == REQUEST ==> request.Some?
      modifies this
      ensures Valid() && building == old(building)
      ensures Grows(old(singletons), singletons) && GrowsOption(old(request), request)
      ensures AllNewSince(old(singletons), old(request), singletons, request, old(made)) && old(made) <= made
      ensures made - old(made) == Count(singletons, request) - old(Count(singletons, request))
      ensures wiring.Success? ==> |wiring.value| == |reg.providers[t.name].params|
      ensures wiring.Success? ==> WiresRight(reg, singletons, request, t, wiring.value, made)
      ensures wiring.Failure? ==> IsFault(reg, request.Some?, outer, t, fault)
      decreases Left(reg, building), 3
    {
      var params := reg.providers[t.name].params;
      var wires: seq<Wire> := [];
      for i := 0 to |params|
        invariant Valid() && building == old(building) && |wires| == i
        invariant Grows(old(singletons), singletons) && GrowsOption(old(request), request)
        invariant AllNewSince(old(singletons), old(request), singletons, request, old(made)) && old(made) <= made
        invariant made - old(made) == Count(singletons, request) - old(Count(singletons, request))
        invariant WiresRight(reg, singletons, request, t, wires, made)
      {
        ghost var s0, r0, m0 := singletons, request, made;
        var wire;
        wire, fault := BuildParam(t, params[i], outer);
        if wire.Failure? {
          return Failure(wire.error), fault;
        }
        WiresExtend(reg, s0, r0, m0, singletons, request, made, t, wires, wire.value);
        wires := wires + [wire.value];
      }
      return Success(wires), [t];
    }

    /** One turn of the loop over the constructor's parameters. */
    method BuildParam(t: Token, p: Param, ghost outer: seq<Token>)
      returns (wire: Result<Wire, Error>, ghost fault: seq<Token>)
      requires Valid() && t.name in reg.providers && building == outer + [t] && p in reg.providers[t.name].params
      modifies this
      ensures Valid() && building == old(building)
      ensures Grows(old(singletons), singletons) && GrowsOption(old(request), request)
      ensures AllNewSince(old(singletons), old(request), singletons, request, old(made)) && old(made) <= made
      ensures made - old(made) == Count(singletons, request) - old(Count(singletons, request))
      ensures wire.Success? ==> ParamOk(reg, reg.providers[t.name].scope, p)
      ensures wire.Success? ==> WiredRight(reg, singletons, request, p, wire.value, made)
      ensures wire.Failure? ==> IsFault(reg, request.Some?, outer, t, fault)
      ensures !p.annotated ==> wire == if p.hasDefault then Success(Default) else Failure(MissingAnnotation)
      ensures p.annotated && Unregistered(p.dep.name) && p.hasDefault ==> wire == Success(Default)
      ensures p.annotated && !(Unregistered(p.dep.name) && p.hasDefault) && p.isLazy ==>
        wire == Success(Proxy(p.dep.name))
      ensures p.annotated && Leaks(t, p) ==> wire == Failure(ScopeLeak)
      ensures p.annotated && !(Unregistered(p.dep.name) && p.hasDefault) && !p.isLazy && wire.Success? ==>
        wire.value.Direct? && p.dep.name in reg.providers
        && exists b: Instance :: b.serial == wire.value.serial
             && StoredByScope(reg.providers[p.dep.name].scope, singletons, request, p.dep, b)
      decreases Left(reg, building), 2
    {
      if !p.annotated {
        if !p.hasDefault {
          return Failure(MissingAnnotation), [t];
        }
        return Success(Default), [t];
      }
      if !IsKnown(reg, p.dep.name) && p.hasDefault {
        return Success(Default), [t];
      }
      if reg.providers[t.name].scope == SINGLETON && ScopeOf(reg, p.dep.name) == REQUEST && !p.isLazy {
        return Failure(ScopeLeak), [t];
      }
      if p.isLazy {
        return Success(Proxy(p.dep.name)), [t];
      }
      assert DependsOn(reg, t, p.dep) && p.dep in Named(reg);
      var got;
      got, fault := Resolve(p.dep);
      if got.Failure? {
        FaultDeeper(reg, request.Some?, outer, t, p.dep, fault);
        return Failure(got.error), [t] + fault;
      }
      assert StoredRight(reg, singletons, request, made, p.dep);
      wire := Success(Direct(got.value.serial));
    }

    // ------------------------------------------------------ request scope

    /** `request_scope`: a fresh store for the request. */
    method EnterScope()
      requires Valid() && request.None? && building == []
      modifies this`request
      ensures Valid() && request == Some(EMPTY)
    {
      OpeningIsSound(reg, singletons, made);
      request := Some(EMPTY);
    }

    /** Closing runs the hooks of the request's instances, latest first, so that
        a dependent always comes before what it depends on, and drops the store.
        A hook that raises stops the ones after it and leaves the store in place,
        since the line that drops it is not reached. */
    method ExitScope(raising: set<Token>) returns (hooks: seq<Token>, failed: bool)
      requires Valid() && request.Some? && building == []
      modifies this`request
      ensures Valid() && request == if failed then old(request) else None
      ensures failed <==> exists t :: t in raising && t in old(request).value.built
      ensures IsHookRun(old(request).value.order, raising, hooks, failed)
      ensures !failed ==> forall t :: t in hooks <==> t in old(request).value.built
      ensures forall i, j :: 0 <= i < j < |hooks| ==> hooks[i] != hooks[j] && !DependsOn(reg, hooks[j], hooks[i])
    {
      hooks, failed := RunHooks(request.value.order, raising);
      HooksInOrder(hooks);
      RaisingHook(hooks, failed, raising);
      if failed {
        return;
      }
      AllHooksRan(hooks);
      ClosingIsSound(reg, singletons, request, made);
      request := None;
    }

    /** What is provided twice in one request is the same instance. In the next
        request a singleton is still the same one, and anything else is made
        anew. */
    method Lifetimes(t: Token) returns (first: Result<Instance, Error>, again: Result<Instance, Error>,
        later: Result<Instance, Error>)
      requires Valid() && request.None? && building == []
      modifies this
      ensures Valid() && request.Some?
      ensures first.Success? ==> t.name in reg.providers && again == first && later.Success?
      ensures first.Success? && reg.providers[t.name].scope == SINGLETON ==> later == first
      ensures first.Success? && reg.providers[t.name].scope == REQUEST ==>
        old(made) <= first.value.serial < later.value.serial
      ensures first.Failure? ==> again.Failure? && later.Failure?
    {
      EnterScope();
      first := Provide(t);
      again := Provide(t);
      var hooks, failed := ExitScope({});
      EnterScope();
      later := Provide(t);
    }

    lemma RaisingHook(hooks: seq<Token>, failed: bool, raising: set<Token>)
      requires Valid() && request.Some?
      requires IsHookRun(request.value.order, raising, hooks, failed)
      ensures failed <==> exists t :: t in raising && t in request.value.built
    {
      var order := request.value.order;
      if failed {
        assert hooks[|hooks| - 1] in request.value.built;
      } else {
        forall t | t in request.value.built ensures t !in raising {
          var k :| 0 <= k < |order| && order[k] == t;
          assert hooks[|order| - 1 - k] == t;
        }
      }
    }

    lemma HooksInOrder(hooks: seq<Token>)
      requires Valid() && request.Some? && |hooks| <= |request.value.order|
      requires forall i :: 0 <= i < |hooks| ==> hooks[i] == request.value.order[|request.value.order| - 1 - i]
      ensures forall i, j :: 0 <= i < j < |hooks| ==> hooks[i] != hooks[j] && !DependsOn(reg, hooks[j], hooks[i])
    {
      forall i, j | 0 <= i < j < |hooks| ensures hooks[i] != hooks[j] && !DependsOn(reg, hooks[j], hooks[i]) {
        DependentsComeLater(reg, singletons, request, made, hooks[j], hooks[i]);
      }
    }

    lemma AllHooksRan(hooks: seq<Token>)
      requires Valid() && request.Some? && |hooks| == |request.value.order|
      requires forall i :: 0 <= i < |hooks| ==> hooks[i] == request.value.order[|request.value.order| - 1 - i]
      ensures forall t :: t in hooks <==> t in request.value.built
    {
      var order := request.value.order;
      forall t | t in request.value.built ensures t in hooks {
        var k :| 0 <= k < |order| && order[k] == t;
        assert hooks[|order| - 1 - k] == t;
      }
    }
  }

  /** The first parameters of t are acceptable and wired right. */
  ghost predicate WiresRight(reg: Registry, singletons: Store, request: Option<Store>, t: Token,
      wires: seq<Wire>, before: nat)
    requires t.name in reg.providers
  {
    var provider := reg.providers[t.name];
    |wires| <= |provider.params| && forall j :: 0 <= j < |wires| ==>
      ParamOk(reg, provider.scope, provider.params[j])
        && WiredRight(reg, singletons, request, provider.params[j], wires[j], before)
  }

  lemma WiresExtend(reg: Registry, s0: Store, r0: Option<Store>, m0: nat, s: Store, r: Option<Store>, m: nat,
      t: Token, wires: seq<Wire>, w: Wire)
    requires Grows(s0, s) && GrowsOption(r0, r) && m0 <= m && t.name in reg.providers
    requires |wires| < |reg.providers[t.name].params| && WiresRight(reg, s0, r0, t, wires, m0)
    requires ParamOk(reg, reg.providers[t.name].scope, reg.providers[t.name].params[|wires|])
    requires WiredRight(reg, s, r, reg.providers[t.name].params[|wires|], w, m)
    ensures WiresRight(reg, s, r, t, wires + [w], m)
  {
  }

  lemma OpeningIsSound(reg: Registry, singletons: Store, next: nat)
    requires Sound(reg, singletons, None, next)
    ensures Sound(reg, singletons, Some(EMPTY), next)
  {
    forall t | Lookup(reg, singletons, Some(EMPTY), t).Some?
      ensures StoredRight(reg, singletons, Some(EMPTY), next, t)
    {
      var b := Lookup(reg, singletons, None, t).value;
      assert StoredRight(reg, singletons, None, next, t);
      forall i | 0 <= i < |b.wiring|
        ensures WiredRight(reg, singletons, Some(EMPTY), reg.providers[t.name].params[i], b.wiring[i], b.serial)
      {
        assert WiredRight(reg, singletons, None, reg.providers[t.name].params[i], b.wiring[i], b.serial);
      }
    }
  }

  /** A singleton never holds a request-scoped instance, so the end of a request
      takes nothing from it. */
  lemma ClosingIsSound(reg: Registry, singletons: Store, request: Option<Store>, next: nat)
    requires Sound(reg, singletons, request, next)
    ensures Sound(reg, singletons, None, next)
  {
    forall t | Lookup(reg, singletons, None, t).Some? ensures StoredRight(reg, singletons, None, next, t) {
      var b := Lookup(reg, singletons, request, t).value;
      assert StoredRight(reg, singletons, request, next, t);
      var provider := reg.providers[t.name];
      assert provider.scope == SINGLETON;
      forall i | 0 <= i < |b.wiring|
        ensures WiredRight(reg, singletons, None, provider.params[i], b.wiring[i], b.serial)
      {
        assert provider.params[i] in provider.params;
        assert WiredRight(reg, singletons, request, provider.params[i], b.wiring[i], b.serial);
      }
    }
  }

  lemma DependentsComeLater(reg: Registry, singletons: Store, request: Option<Store>, next: nat, t: Token, d: Token)
    requires Sound(reg, singletons, request, next) && request.Some?
    requires t in request.value.built && d in request.value.built
    requires request.value.built[t].serial < request.value.built[d].serial
    ensures !DependsOn(reg, t, d)
  {
    if DependsOn(reg, t, d) {
      assert ScopeOf(reg, t.name) == REQUEST && ScopeOf(reg, d.name) == REQUEST;
      StoredDependency(reg, singletons, request, next, t, d);
    }
  }
}
