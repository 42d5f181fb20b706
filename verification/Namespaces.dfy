// Namespaces (type/namespace.cc), their hash-keyed cache (core/nscache.h) and
// the environment's map of them (core/env.cc), over any hash of names.

module Namespaces {
  import opened Options

  /** A name's hash: a fixnum. */
  type Hash = int

  /** hash_id over 64-bit words, kept to a fixnum's 59 bits. */
  function HashId(name: string): bv64 {
    Keep59(Fnv(name))
  }

  function Keep59(h: bv64): bv64 {
    (h << 5) >> 5
  }

  /** The FNV loop of hash_id: each signed byte xored in, then the prime. */
  function Fnv(name: string): bv64 {
    if name == "" then 2166136261
    else Mix(Fnv(name[..|name| - 1]), name[|name| - 1])
  }

  function Mix(h: bv64, c: char): bv64 {
    (h ^ SignedByte(c)) * 16777619
  }

  function SignedByte(c: char): bv64 {
    var b := (c as int % 256) as bv64;
    if b < 128 then b else b | 0xFFFF_FFFF_FFFF_FF00
  }

  /** hash_id */
  method ComputeHashId(name: string) returns (h: bv64)
    ensures h == HashId(name)
  {
    hide Mix, Fnv, Keep59;
    h := Fnv("");
    var i := 0;
    while i < |name|
      invariant i <= |name| && h == Fnv(name[..i])
    {
      FnvStep(name, i);
      h := Mix(h, name[i]);
      i := i + 1;
    }
    assert name[..|name|] == name;
    h := Keep59(h);
  }

  lemma FnvStep(name: string, i: nat)
    requires i < |name|
    ensures Fnv(name[..i + 1]) == Mix(Fnv(name[..i]), name[i])
  {
    hide Mix;
    assert name[..i + 1][..i] == name[..i];
  }

  // -------------------------------------------------------------------- the state

  /** A symbol: the namespace it was interned for (None: none was named), its
      name, and its value unless it is unbound. */
  datatype Symbol<V> = Symbol(ns: Option<nat>, name: string, value: Option<V>)

  datatype Scope = Extern | Intern

  /** One scope of a namespace: the symbol list in the heap and its cache. */
  datatype Table = Table(list: seq<nat>, cache: map<Hash, nat>)

  /** A namespace; it can be looked into once it has a cache. */
  datatype Space = Space(name: string, cached: bool, externs: Table, interns: Table)

  datatype State<V> = State(symbols: seq<Symbol<V>>, spaces: seq<Space>,
                            namespaces: map<string, nat>, uninterned: nat)

  const EMPTY := Table([], map[])

  function TableOf(space: Space, scope: Scope): Table {
    if scope.Extern? then space.externs else space.interns
  }

  function WithTable(space: Space, scope: Scope, table: Table): Space {
    if scope.Extern? then space.(externs := table) else space.(interns := table)
  }

  /** The state Env's constructor sets up before it interns anything. */
  function Initial<V>(): State<V> {
    State([], [Space("", true, EMPTY, EMPTY), Space("system", true, EMPTY, EMPTY),
               Space("env", true, EMPTY, EMPTY), Space("mu", true, EMPTY, EMPTY)],
          map["env" := 2, "mu" := 3, "system" := 1], 0)
  }

  // --------------------------------------------------------------- the operations

  /** What Namespace::Map does: a symbol, nothing, a thrown hash collision, or a
      null cache. */
  datatype Found = Hit(sym: nat) | Miss | Collision | NoCache

  function Map<V>(hash: string -> Hash, st: State<V>, ns: nat, scope: Scope, name: string): Found
    requires ns < |st.spaces|
  {
    var cache := TableOf(st.spaces[ns], scope).cache;
    if !st.spaces[ns].cached then NoCache
    else if hash(name) !in cache then Miss
    else
      var sym := cache[hash(name)];
      if sym < |st.symbols| && st.symbols[sym].name == name then Hit(sym) else Collision
  }

  /** How Namespace::Intern ends. AddCollision is the throw in add_externs and
      add_interns. */
  datatype Interned = Sym(sym: nat) | MapCollision | AddCollision | Crash

  function Designated<V>(st: State<V>, nsd: Option<nat>): nat {
    if nsd.Some? then nsd.value else st.uninterned
  }

  /** Namespace::Intern */
  function InternName<V>(hash: string -> Hash, st: State<V>, nsd: Option<nat>, scope: Scope,
                         name: string, value: Option<V>): (Interned, State<V>)
    requires Designated(st, nsd) < |st.spaces|
  {
    var ns := Designated(st, nsd);
    match Map(hash, st, ns, scope, name)
    case NoCache => (Crash, st)
    case Collision => (MapCollision, st)
    case Miss =>
      var sym := |st.symbols|;
      var table := TableOf(st.spaces[ns], scope);
      var listed := table.(list := [sym] + table.list);
      var st1 := st.(symbols := st.symbols + [Symbol(nsd, name, value)]);
      if hash(name) in table.cache then
        (AddCollision, WithSpace(st1, ns, WithTable(st.spaces[ns], scope, listed)))
      else
        (Sym(sym), WithSpace(st1, ns, WithTable(st.spaces[ns], scope,
                                                listed.(cache := table.cache[hash(name) := sym]))))
    case Hit(sym) =>
      (Sym(sym), if sym < |st.symbols| && st.symbols[sym].value.None?
                 then st.(symbols := st.symbols[sym := st.symbols[sym].(value := value)]) else st)
  }

  /** The value symbol s has once it is interned with this one: the one it had, if
      it had one. */
  function Bound<V>(st: State<V>, s: nat, value: Option<V>): Option<V> {
    if s < |st.symbols| && st.symbols[s].value.Some? then st.symbols[s].value else value
  }

  function WithSpace<V>(st: State<V>, ns: nat, space: Space): State<V>
    requires ns < |st.spaces|
  {
    st.(spaces := st.spaces[ns := space])
  }

  /** Making a namespace object: no cache yet. */
  function MakeSpace<V>(st: State<V>, name: string): State<V> {
    st.(spaces := st.spaces + [Space(name, false, EMPTY, EMPTY)])
  }

  /** Env::AddNamespace: a fresh cache, unless the name is taken. */
  function AddSpace<V>(st: State<V>, ns: nat): State<V>
    requires ns < |st.spaces|
  {
    var space := st.spaces[ns];
    if space.name in st.namespaces then st
    else
      WithSpace(st, ns, space.(cached := true, externs := space.externs.(cache := map[]),
                               interns := space.interns.(cache := map[])))
        .(namespaces := st.namespaces[space.name := ns])
  }

  // ---------------------------------------------------------------- the invariant

  /** The cache holds exactly the symbols of the list, keyed by name hash, and
      the list has no symbol twice. */
  ghost predicate Agrees<V>(hash: string -> Hash, symbols: seq<Symbol<V>>, table: Table) {
    && (forall i | 0 <= i < |table.list| ::
          && table.list[i] < |symbols|
          && hash(symbols[table.list[i]].name) in table.cache
          && table.cache[hash(symbols[table.list[i]].name)] == table.list[i])
    && (forall h | h in table.cache ::
          && table.cache[h] in table.list && table.cache[h] < |symbols|
          && hash(symbols[table.cache[h]].name) == h)
    && (forall i, j | 0 <= i < j < |table.list| :: table.list[i] != table.list[j])
  }

  ghost predicate SpaceOk<V>(hash: string -> Hash, symbols: seq<Symbol<V>>, space: Space) {
    && Agrees(hash, symbols, space.externs) && Agrees(hash, symbols, space.interns)
    && (!space.cached ==> space.externs == EMPTY && space.interns == EMPTY)
  }

  ghost predicate Ok<V>(hash: string -> Hash, st: State<V>) {
    && (forall k | 0 <= k < |st.spaces| :: SpaceOk(hash, st.symbols, st.spaces[k]))
    && st.uninterned < |st.spaces| && st.spaces[st.uninterned].cached
    && (forall name | name in st.namespaces ::
          && st.namespaces[name] < |st.spaces|
          && st.spaces[st.namespaces[name]].name == name && st.spaces[st.namespaces[name]].cached)
    && (forall k | 0 <= k < |st.spaces| && st.spaces[k].cached && k != st.uninterned ::
          st.spaces[k].name in st.namespaces && st.namespaces[st.spaces[k].name] == k)
  }

  lemma InitialOk<V>(hash: string -> Hash)
    ensures Ok(hash, Initial<V>())
  {
    hide Agrees;
    EmptyAgrees<V>(hash, []);
    var st := Initial<V>();
    forall name | name in st.namespaces
      ensures st.namespaces[name] < 4 && st.spaces[st.namespaces[name]].name == name
    {
      assert name == "env" || name == "mu" || name == "system";
    }
    forall k | 0 <= k < 4 && k != 0
      ensures st.spaces[k].name in st.namespaces && st.namespaces[st.spaces[k].name] == k
    {
      assert k == 1 || k == 2 || k == 3;
    }
  }

  lemma EmptyAgrees<V>(hash: string -> Hash, symbols: seq<Symbol<V>>)
    ensures Agrees(hash, symbols, EMPTY)
  {
  }

  /** Looking a name up is exact: a hit is the one symbol of that name in the
      list; a miss means no listed symbol has even its hash; a collision is
      thrown exactly when a listed symbol of another name has its hash. */
  lemma MapIsExact<V>(hash: string -> Hash, st: State<V>, ns: nat, scope: Scope, name: string)
    requires Ok(hash, st) && ns < |st.spaces| && st.spaces[ns].cached
    ensures var list := TableOf(st.spaces[ns], scope).list;
            match Map(hash, st, ns, scope, name)
            case Hit(sym) =>
              && sym in list && sym < |st.symbols| && st.symbols[sym].name == name
              && forall s | s in list && s != sym :: s < |st.symbols| && hash(st.symbols[s].name) != hash(name)
            case Miss => forall s | s in list :: s < |st.symbols| && hash(st.symbols[s].name) != hash(name)
            case Collision =>
              exists s | s in list ::
                s < |st.symbols| && hash(st.symbols[s].name) == hash(name) && st.symbols[s].name != name
            case NoCache => false
  {
    assert SpaceOk(hash, st.symbols, st.spaces[ns]);
    var table := TableOf(st.spaces[ns], scope);
    assert Agrees(hash, st.symbols, table);
    forall s | s in table.list
      ensures s < |st.symbols| && hash(st.symbols[s].name) in table.cache
      ensures table.cache[hash(st.symbols[s].name)] == s
    {
      var i :| 0 <= i < |table.list| && table.list[i] == s;
    }
    var h := hash(name);
    if h in table.cache { assert table.cache[h] in table.list; }
  }

  /** With a hash that separates the names in play, lookup by name is lookup in
      the list. */
  lemma MapFindsListed<V>(hash: string -> Hash, st: State<V>, ns: nat, scope: Scope, name: string)
    requires Ok(hash, st) && ns < |st.spaces| && st.spaces[ns].cached
    requires forall s | s in TableOf(st.spaces[ns], scope).list ::
               s < |st.symbols| && (hash(st.symbols[s].name) == hash(name) ==> st.symbols[s].name == name)
    ensures var list := TableOf(st.spaces[ns], scope).list;
            var r := Map(hash, st, ns, scope, name);
            && (r.Hit? || r.Miss?)
            && (r.Hit? <==> exists s | s in list :: s < |st.symbols| && st.symbols[s].name == name)
  {
    MapIsExact(hash, st, ns, scope, name);
  }

  lemma AgreesGrows<V>(hash: string -> Hash, symbols: seq<Symbol<V>>, table: Table, symbols': seq<Symbol<V>>)
    requires Agrees(hash, symbols, table) && |symbols| <= |symbols'|
    requires forall s | 0 <= s < |symbols| :: symbols'[s].name == symbols[s].name
    ensures Agrees(hash, symbols', table)
  {
  }

  lemma AgreesAdd<V>(hash: string -> Hash, symbols: seq<Symbol<V>>, table: Table, new_: Symbol<V>)
    requires Agrees(hash, symbols, table) && hash(new_.name) !in table.cache
    ensures Agrees(hash, symbols + [new_],
                   Table([|symbols|] + table.list, table.cache[hash(new_.name) := |symbols|]))
  {
    var symbols' := symbols + [new_];
    AgreesGrows(hash, symbols, table, symbols');
    var table' := Table([|symbols|] + table.list, table.cache[hash(new_.name) := |symbols|]);
    forall i | 0 <= i < |table'.list|
      ensures table'.list[i] < |symbols'|
      ensures hash(symbols'[table'.list[i]].name) in table'.cache
      ensures table'.cache[hash(symbols'[table'.list[i]].name)] == table'.list[i]
    {
      if i > 0 { assert table'.list[i] == table.list[i - 1]; }
    }
    forall h | h in table'.cache
      ensures table'.cache[h] in table'.list && table'.cache[h] < |symbols'|
      ensures hash(symbols'[table'.cache[h]].name) == h
    {
      if h == hash(new_.name) { assert table'.list[0] == |symbols|; }
      else { assert table.cache[h] in table.list; }
    }
    forall i, j | 0 <= i < j < |table'.list| ensures table'.list[i] != table'.list[j] {
      assert table'.list[j] == table.list[j - 1];
      if i > 0 { assert table'.list[i] == table.list[i - 1]; }
    }
  }

  /** Interning keeps the caches and lists in agreement; the throw in the cache's
      add functions is unreachable; the symbol returned has the name asked for;
      and no other symbol changes. */
  lemma InternKeepsAgreement<V>(hash: string -> Hash, st: State<V>, nsd: Option<nat>, scope: Scope,
                                name: string, value: Option<V>)
    requires Ok(hash, st) && Designated(st, nsd) < |st.spaces|
    ensures var (r, st') := InternName(hash, st, nsd, scope, name, value);
            && Ok(hash, st') && r != AddCollision && |st.symbols| <= |st'.symbols|
            && (r.Crash? <==> !st.spaces[Designated(st, nsd)].cached)
            && (!r.Sym? ==> st' == st)
            && (forall s | 0 <= s < |st.symbols| && r != Sym(s) :: st'.symbols[s] == st.symbols[s])
            && (r.Sym? ==>
                  && r.sym < |st'.symbols| && st'.symbols[r.sym].name == name
                  && st'.symbols[r.sym].value == Bound(st, r.sym, value)
                  && Map(hash, st', Designated(st, nsd), scope, name) == Hit(r.sym))
  {
    hide Ok;
    var ns := Designated(st, nsd);
    match Map(hash, st, ns, scope, name)
    case Miss => MissKeeps(hash, st, nsd, scope, name, value);
    case Hit(sym) => HitKeeps(hash, st, nsd, scope, name, value);
    case _ => CachedHasMap(hash, st, ns, scope, name);
  }

  lemma CachedHasMap<V>(hash: string -> Hash, st: State<V>, ns: nat, scope: Scope, name: string)
    requires ns < |st.spaces|
    ensures Map(hash, st, ns, scope, name).NoCache? <==> !st.spaces[ns].cached
  {
  }

  lemma MissKeeps<V>(hash: string -> Hash, st: State<V>, nsd: Option<nat>, scope: Scope,
                     name: string, value: Option<V>)
    requires Ok(hash, st) && Designated(st, nsd) < |st.spaces|
    requires Map(hash, st, Designated(st, nsd), scope, name).Miss?
    ensures var (r, st') := InternName(hash, st, nsd, scope, name, value);
            && Ok(hash, st') && r == Sym(|st.symbols|)
            && st'.symbols == st.symbols + [Symbol(nsd, name, value)]
            && Map(hash, st', Designated(st, nsd), scope, name) == Hit(r.sym)
  {
    hide Agrees;
    var ns := Designated(st, nsd);
    var st' := InternName(hash, st, nsd, scope, name, value).1;
    assert SpaceOk(hash, st.symbols, st.spaces[ns]);
    var table := TableOf(st.spaces[ns], scope);
    AgreesAdd(hash, st.symbols, table, Symbol(nsd, name, value));
    SpacesKept(hash, st, st', ns);
    assert SpaceOk(hash, st'.symbols, st'.spaces[ns]);
    OkKept(hash, st, st', ns);
  }

  lemma HitKeeps<V>(hash: string -> Hash, st: State<V>, nsd: Option<nat>, scope: Scope,
                    name: string, value: Option<V>)
    requires Ok(hash, st) && Designated(st, nsd) < |st.spaces|
    requires Map(hash, st, Designated(st, nsd), scope, name).Hit?
    ensures var (r, st') := InternName(hash, st, nsd, scope, name, value);
            var sym := Map(hash, st, Designated(st, nsd), scope, name).sym;
            && Ok(hash, st') && r == Sym(sym) && sym < |st.symbols| == |st'.symbols|
            && st'.spaces == st.spaces && st'.symbols[sym].name == name
            && st'.symbols[sym].value == Bound(st, sym, value)
            && (forall s | 0 <= s < |st.symbols| && s != sym :: st'.symbols[s] == st.symbols[s])
            && Map(hash, st', Designated(st, nsd), scope, name) == Hit(sym)
  {
    hide Agrees;
    var ns := Designated(st, nsd);
    var st' := InternName(hash, st, nsd, scope, name, value).1;
    assert SpaceOk(hash, st.symbols, st.spaces[ns]);
    SpacesKept(hash, st, st', ns);
    assert SpaceOk(hash, st'.symbols, st'.spaces[ns]);
    OkKept(hash, st, st', ns);
  }

  lemma OkKept<V>(hash: string -> Hash, st: State<V>, st': State<V>, ns: nat)
    requires Ok(hash, st) && ns < |st.spaces| == |st'.spaces|
    requires forall k | 0 <= k < |st.spaces| :: SpaceOk(hash, st'.symbols, st'.spaces[k])
    requires forall k | 0 <= k < |st.spaces| && k != ns :: st'.spaces[k] == st.spaces[k]
    requires st'.spaces[ns].name == st.spaces[ns].name && st'.spaces[ns].cached == st.spaces[ns].cached
    requires st'.namespaces == st.namespaces && st'.uninterned == st.uninterned
    ensures Ok(hash, st')
  {
    hide SpaceOk;
  }

  /** The other namespaces still agree when symbols are added or given values. */
  lemma SpacesKept<V>(hash: string -> Hash, st: State<V>, st': State<V>, ns: nat)
    requires Ok(hash, st) && ns < |st.spaces| == |st'.spaces| && |st.symbols| <= |st'.symbols|
    requires forall s | 0 <= s < |st.symbols| :: st'.symbols[s].name == st.symbols[s].name
    requires forall k | 0 <= k < |st.spaces| && k != ns :: st'.spaces[k] == st.spaces[k]
    ensures forall k | 0 <= k < |st.spaces| && k != ns :: SpaceOk(hash, st'.symbols, st'.spaces[k])
    ensures Agrees(hash, st'.symbols, st.spaces[ns].externs) && Agrees(hash, st'.symbols, st.spaces[ns].interns)
  {
    forall k | 0 <= k < |st.spaces|
      ensures Agrees(hash, st'.symbols, st.spaces[k].externs) && Agrees(hash, st'.symbols, st.spaces[k].interns)
    {
      assert SpaceOk(hash, st.symbols, st.spaces[k]);
      AgreesGrows(hash, st.symbols, st.spaces[k].externs, st'.symbols);
      AgreesGrows(hash, st.symbols, st.spaces[k].interns, st'.symbols);
    }
    forall k | 0 <= k < |st.spaces| && k != ns ensures SpaceOk(hash, st'.symbols, st'.spaces[k]) {
      assert SpaceOk(hash, st.symbols, st.spaces[k]);
    }
  }

  /** No other lookup is affected: not in the other scope, not in another
      namespace, not of a name with another hash. */
  lemma InternIsLocal<V>(hash: string -> Hash, st: State<V>, nsd: Option<nat>, scope: Scope,
                         name: string, value: Option<V>, ns': nat, scope': Scope, name': string)
    requires Ok(hash, st) && Designated(st, nsd) < |st.spaces| && ns' < |st.spaces|
    requires ns' != Designated(st, nsd) || scope' != scope || hash(name') != hash(name)
    ensures var st' := InternName(hash, st, nsd, scope, name, value).1;
            |st'.spaces| == |st.spaces| && Map(hash, st', ns', scope', name') == Map(hash, st, ns', scope', name')
  {
    hide Ok, Agrees, InternName, Map;
    var st' := InternName(hash, st, nsd, scope, name, value).1;
    assert SpaceOk(hash, st.symbols, st.spaces[ns']) by { SpaceIsOk(hash, st, ns'); }
    InternFrame(hash, st, nsd, scope, name, value, ns', scope', name');
    var table := TableOf(st.spaces[ns'], scope');
    assert Agrees(hash, st.symbols, table);
    if hash(name') in table.cache { CachedIsSymbol(hash, st.symbols, table, hash(name')); }
    SameLookup(hash, st, st', ns', scope', name');
  }

  /** Interning keeps the names there are, and one cache entry changes at most. */
  lemma InternFrame<V>(hash: string -> Hash, st: State<V>, nsd: Option<nat>, scope: Scope,
                       name: string, value: Option<V>, ns': nat, scope': Scope, name': string)
    requires Designated(st, nsd) < |st.spaces| && ns' < |st.spaces|
    requires ns' != Designated(st, nsd) || scope' != scope || hash(name') != hash(name)
    ensures var st' := InternName(hash, st, nsd, scope, name, value).1;
            && |st'.spaces| == |st.spaces| && |st.symbols| <= |st'.symbols|
            && (forall s | 0 <= s < |st.symbols| :: st'.symbols[s].name == st.symbols[s].name)
            && st'.spaces[ns'].cached == st.spaces[ns'].cached
            && var cache, cache' := TableOf(st.spaces[ns'], scope').cache, TableOf(st'.spaces[ns'], scope').cache;
            && (hash(name') in cache' <==> hash(name') in cache)
            && (hash(name') in cache ==> cache'[hash(name')] == cache[hash(name')])
  {
  }

  lemma SameLookup<V>(hash: string -> Hash, st: State<V>, st': State<V>, ns: nat, scope: Scope, name: string)
    requires ns < |st.spaces| == |st'.spaces| && |st.symbols| <= |st'.symbols|
    requires forall s | 0 <= s < |st.symbols| :: st'.symbols[s].name == st.symbols[s].name
    requires st'.spaces[ns].cached == st.spaces[ns].cached
    requires var cache, cache' := TableOf(st.spaces[ns], scope).cache, TableOf(st'.spaces[ns], scope).cache;
             && (hash(name) in cache' <==> hash(name) in cache)
             && (hash(name) in cache ==> cache'[hash(name)] == cache[hash(name)] < |st.symbols|)
    ensures Map(hash, st', ns, scope, name) == Map(hash, st, ns, scope, name)
  {
  }

  lemma CachedIsSymbol<V>(hash: string -> Hash, symbols: seq<Symbol<V>>, table: Table, h: Hash)
    requires Agrees(hash, symbols, table) && h in table.cache
    ensures table.cache[h] < |symbols|
  {
  }

  /** Interning a name again returns the same symbol, whatever the value. */
  lemma InternAgainIsTheSame<V>(hash: string -> Hash, st: State<V>, nsd: Option<nat>, scope: Scope,
                                name: string, value: Option<V>, value': Option<V>)
    requires Ok(hash, st) && Designated(st, nsd) < |st.spaces|
    requires InternName(hash, st, nsd, scope, name, value).0.Sym?
    ensures var (r, st') := InternName(hash, st, nsd, scope, name, value);
            var (r', st'') := InternName(hash, st', nsd, scope, name, value');
            r' == r && |st''.symbols| == |st'.symbols| && st''.spaces == st'.spaces
  {
    InternKeepsAgreement(hash, st, nsd, scope, name, value);
  }

  /** Registering keeps agreement exactly when the name is taken or nothing was
      listed yet. The environment's own unnamed namespace is cached from the
      start but not registered: registering it would empty a cache in use. */
  lemma AddSpaceKeepsAgreement<V>(hash: string -> Hash, st: State<V>, ns: nat)
    requires Ok(hash, st) && ns < |st.spaces|
    ensures Ok(hash, AddSpace(st, ns)) <==>
            || st.spaces[ns].name in st.namespaces
            || (st.spaces[ns].externs.list == [] && st.spaces[ns].interns.list == [])
    ensures !st.spaces[ns].cached ==> Ok(hash, AddSpace(st, ns))
    ensures ns != st.uninterned ==> Ok(hash, AddSpace(st, ns))
  {
    hide Ok;
    var space := st.spaces[ns];
    assert SpaceOk(hash, st.symbols, space) by { SpaceIsOk(hash, st, ns); }
    if space.name !in st.namespaces {
      if space.externs.list == [] && space.interns.list == [] { EmptyRegisters(hash, st, ns); }
      if Ok(hash, AddSpace(st, ns)) { OnlyEmptyRegisters(hash, st, ns); }
      if ns != st.uninterned { UnregisteredIsEmpty(hash, st, ns); }
    }
  }

  lemma SpaceIsOk<V>(hash: string -> Hash, st: State<V>, ns: nat)
    requires Ok(hash, st) && ns < |st.spaces|
    ensures SpaceOk(hash, st.symbols, st.spaces[ns])
  {
  }

  lemma UnregisteredIsEmpty<V>(hash: string -> Hash, st: State<V>, ns: nat)
    requires Ok(hash, st) && ns < |st.spaces| && ns != st.uninterned && st.spaces[ns].name !in st.namespaces
    ensures st.spaces[ns].externs == EMPTY && st.spaces[ns].interns == EMPTY
  {
    hide Agrees;
    assert SpaceOk(hash, st.symbols, st.spaces[ns]);
  }

  lemma EmptyRegisters<V>(hash: string -> Hash, st: State<V>, ns: nat)
    requires Ok(hash, st) && ns < |st.spaces| && st.spaces[ns].name !in st.namespaces
    requires st.spaces[ns].externs.list == [] && st.spaces[ns].interns.list == []
    ensures Ok(hash, AddSpace(st, ns))
  {
    var st' := AddSpace(st, ns);
    assert SpaceOk(hash, st'.symbols, st'.spaces[ns]);
    assert forall k | 0 <= k < |st.spaces| && k != ns :: SpaceOk(hash, st.symbols, st.spaces[k]);
  }

  lemma OnlyEmptyRegisters<V>(hash: string -> Hash, st: State<V>, ns: nat)
    requires ns < |st.spaces| && st.spaces[ns].name !in st.namespaces && Ok(hash, AddSpace(st, ns))
    ensures st.spaces[ns].externs.list == [] && st.spaces[ns].interns.list == []
  {
    var st' := AddSpace(st, ns);
    assert SpaceOk(hash, st'.symbols, st'.spaces[ns]) by { SpaceIsOk(hash, st', ns); }
    EmptyCache(hash, st'.symbols, st'.spaces[ns].externs);
    EmptyCache(hash, st'.symbols, st'.spaces[ns].interns);
  }

  lemma EmptyCache<V>(hash: string -> Hash, symbols: seq<Symbol<V>>, table: Table)
    requires Agrees(hash, symbols, table) && table.cache == map[]
    ensures table.list == []
  {
    assert First(table.list) >= 0;
  }

  function First(list: seq<nat>): nat {
    if list == [] then 0 else list[0]
  }

  // ------------------------------------------------------------------ whole runs

  datatype Op<V> =
    | Make(name: string)
    | Add(ns: nat)
    | InternOp(nsd: Option<nat>, scope: Scope, name: string, value: Option<V>)

  /** One operation; an operation on a namespace there is not does nothing. */
  function Step<V>(hash: string -> Hash, st: State<V>, op: Op<V>): State<V> {
    match op
    case Make(name) => MakeSpace(st, name)
    case Add(ns) => if ns < |st.spaces| then AddSpace(st, ns) else st
    case InternOp(nsd, scope, name, value) =>
      if Designated(st, nsd) < |st.spaces| then InternName(hash, st, nsd, scope, name, value).1 else st
  }

  function Run<V>(hash: string -> Hash, st: State<V>, ops: seq<Op<V>>): State<V>
    decreases |ops|
  {
    if ops == [] then st else Run(hash, Step(hash, st, ops[0]), ops[1..])
  }

  /** What a later state keeps of an earlier one's symbols: all of a bound symbol,
      the name and namespace of an unbound one. */
  ghost predicate WrittenOnce<V>(st: State<V>, st': State<V>) {
    && |st.symbols| <= |st'.symbols|
    && forall s | 0 <= s < |st.symbols| ::
         && st'.symbols[s].name == st.symbols[s].name && st'.symbols[s].ns == st.symbols[s].ns
         && (st.symbols[s].value.Some? ==> st'.symbols[s].value == st.symbols[s].value)
  }

  lemma MakeSpaceKeepsAgreement<V>(hash: string -> Hash, st: State<V>, name: string)
    requires Ok(hash, st)
    ensures Ok(hash, MakeSpace(st, name))
  {
    hide Agrees;
    var st' := MakeSpace(st, name);
    EmptyAgrees(hash, st.symbols);
    forall k | 0 <= k < |st'.spaces| ensures SpaceOk(hash, st'.symbols, st'.spaces[k]) {
      if k < |st.spaces| { assert SpaceOk(hash, st.symbols, st.spaces[k]); }
    }
  }

  lemma StepKeeps<V>(hash: string -> Hash, st: State<V>, op: Op<V>)
    requires Ok(hash, st) && op != Add(st.uninterned)
    ensures Ok(hash, Step(hash, st, op)) && WrittenOnce(st, Step(hash, st, op))
    ensures Step(hash, st, op).uninterned == st.uninterned
  {
    hide Ok, InternName;
    match op
    case Make(name) => MakeSpaceKeepsAgreement(hash, st, name);
    case Add(ns) => if ns < |st.spaces| { AddSpaceKeepsAgreement(hash, st, ns); }
    case InternOp(nsd, scope, name, value) =>
      if Designated(st, nsd) < |st.spaces| { InternWritesOnce(hash, st, nsd, scope, name, value); }
  }

  lemma InternWritesOnce<V>(hash: string -> Hash, st: State<V>, nsd: Option<nat>, scope: Scope,
                            name: string, value: Option<V>)
    requires Ok(hash, st) && Designated(st, nsd) < |st.spaces|
    ensures var st' := InternName(hash, st, nsd, scope, name, value).1;
            Ok(hash, st') && WrittenOnce(st, st') && st'.uninterned == st.uninterned
  {
    hide Ok;
    InternKeepsAgreement(hash, st, nsd, scope, name, value);
  }

  /** The first value that symbol s is interned with over a run. */
  function FirstGiven<V>(hash: string -> Hash, st: State<V>, ops: seq<Op<V>>, s: nat): Option<V>
    decreases |ops|
  {
    if ops == [] then None
    else
      var op := ops[0];
      if op.InternOp? && op.value.Some? && Designated(st, op.nsd) < |st.spaces| &&
         InternName(hash, st, op.nsd, op.scope, op.name, op.value).0 == Sym(s)
      then op.value
      else FirstGiven(hash, Step(hash, st, op), ops[1..], s)
  }

  lemma StepBinds<V>(hash: string -> Hash, st: State<V>, op: Op<V>, s: nat)
    requires Ok(hash, st) && op != Add(st.uninterned) && s < |Step(hash, st, op).symbols|
    ensures var st' := Step(hash, st, op);
            st'.symbols[s].value ==
            if op.InternOp? && Designated(st, op.nsd) < |st.spaces| &&
               InternName(hash, st, op.nsd, op.scope, op.name, op.value).0 == Sym(s)
            then Bound(st, s, op.value)
            else if s < |st.symbols| then st.symbols[s].value else None
  {
    hide Ok;
    if op.InternOp? && Designated(st, op.nsd) < |st.spaces| {
      InternKeepsAgreement(hash, st, op.nsd, op.scope, op.name, op.value);
      InternMakesOne(hash, st, op.nsd, op.scope, op.name, op.value);
    }
  }

  lemma InternMakesOne<V>(hash: string -> Hash, st: State<V>, nsd: Option<nat>, scope: Scope,
                          name: string, value: Option<V>)
    requires Ok(hash, st) && Designated(st, nsd) < |st.spaces|
    ensures var (r, st') := InternName(hash, st, nsd, scope, name, value);
            |st'.symbols| > |st.symbols| ==> |st'.symbols| == |st.symbols| + 1 && r == Sym(|st.symbols|)
  {
    hide Ok;
    if Map(hash, st, Designated(st, nsd), scope, name).Miss? { MissKeeps(hash, st, nsd, scope, name, value); }
  }

  /** Over a run a symbol's value is the value it had at the start, or else the
      first it is interned with; it is unbound only if there is neither. */
  lemma {:induction false} ValueIsFirstGiven<V>(hash: string -> Hash, st: State<V>, ops: seq<Op<V>>, s: nat)
    requires Ok(hash, st) && (forall op | op in ops :: op != Add(st.uninterned))
    requires s < |Run(hash, st, ops).symbols|
    ensures Run(hash, st, ops).symbols[s].value == Bound(st, s, FirstGiven(hash, st, ops, s))
    decreases |ops|
  {
    hide Ok, Step, InternName;
    if ops != [] {
      assert ops[0] in ops && forall op | op in ops[1..] :: op in ops;
      var st' := Step(hash, st, ops[0]);
      StepKeeps(hash, st, ops[0]);
      ValueIsFirstGiven(hash, st', ops[1..], s);
      if s < |st'.symbols| { StepBinds(hash, st, ops[0], s); } else { NoSuchSymbol(hash, st, ops[0], s); }
    }
  }

  lemma NoSuchSymbol<V>(hash: string -> Hash, st: State<V>, op: Op<V>, s: nat)
    requires Ok(hash, st) && op != Add(st.uninterned) && s >= |Step(hash, st, op).symbols|
    ensures s >= |st.symbols|
    ensures op.InternOp? && Designated(st, op.nsd) < |st.spaces| ==>
              InternName(hash, st, op.nsd, op.scope, op.name, op.value).0 != Sym(s)
  {
    hide Ok;
    StepKeeps(hash, st, op);
    if op.InternOp? && Designated(st, op.nsd) < |st.spaces| {
      InternKeepsAgreement(hash, st, op.nsd, op.scope, op.name, op.value);
    }
  }

  /** In every state that making, registering and interning reach, the unnamed
      namespace never being registered, each cache agrees with its list, and every
      symbol has been written at most once: its value never changes after it is
      first bound. */
  lemma {:induction false} RunsKeepAgreementAndValues<V>(hash: string -> Hash, st: State<V>, ops: seq<Op<V>>)
    requires Ok(hash, st) && forall op | op in ops :: op != Add(st.uninterned)
    ensures Ok(hash, Run(hash, st, ops)) && WrittenOnce(st, Run(hash, st, ops))
    decreases |ops|
  {
    hide Ok, Step;
    if ops != [] {
      assert ops[0] in ops && forall op | op in ops[1..] :: op in ops;
      StepKeeps(hash, st, ops[0]);
      RunsKeepAgreementAndValues(hash, Step(hash, st, ops[0]), ops[1..]);
    }
  }

  /** The same from the environment's initial state. */
  lemma ReachableStatesAgree<V>(hash: string -> Hash, ops: seq<Op<V>>)
    requires forall op | op in ops :: op != Add(Initial<V>().uninterned)
    ensures Ok(hash, Run(hash, Initial<V>(), ops))
  {
    InitialOk<V>(hash);
    RunsKeepAgreementAndValues(hash, Initial<V>(), ops);
  }

  /** Every listed symbol was interned for the namespace that lists it. */
  ghost predicate AtHome<V>(st: State<V>) {
    forall k: nat, scope, i: nat {:trigger TableOf(st.spaces[k], scope).list[i]} |
      k < |st.spaces| && i < |TableOf(st.spaces[k], scope).list| ::
      var s := TableOf(st.spaces[k], scope).list[i];
      s < |st.symbols| && Designated(st, st.symbols[s].ns) == k
  }

  /** What interning does to the symbol lists and to the symbols' namespaces. */
  lemma InternLists<V>(hash: string -> Hash, st: State<V>, nsd: Option<nat>, scope: Scope,
                       name: string, value: Option<V>, k: nat, sc: Scope)
    requires Designated(st, nsd) < |st.spaces| && k < |st.spaces|
    ensures var st' := InternName(hash, st, nsd, scope, name, value).1;
            && |st'.spaces| == |st.spaces| && st'.uninterned == st.uninterned
            && |st.symbols| <= |st'.symbols| && (forall s | 0 <= s < |st.symbols| :: st'.symbols[s].ns == st.symbols[s].ns)
            && var before, after := TableOf(st.spaces[k], sc).list, TableOf(st'.spaces[k], sc).list;
               after == before ||
               (k == Designated(st, nsd) && after == [|st.symbols|] + before &&
                |st'.symbols| == |st.symbols| + 1 && st'.symbols[|st.symbols|].ns == nsd)
  {
    hide Map;
  }

  lemma InternKeepsHome<V>(hash: string -> Hash, st: State<V>, nsd: Option<nat>, scope: Scope,
                           name: string, value: Option<V>)
    requires AtHome(st) && Designated(st, nsd) < |st.spaces|
    ensures AtHome(InternName(hash, st, nsd, scope, name, value).1)
  {
    hide InternName, TableOf;
    var ns, st' := Designated(st, nsd), InternName(hash, st, nsd, scope, name, value).1;
    InternLists(hash, st, nsd, scope, name, value, ns, scope);
    forall k: nat, sc, i: nat | k < |st'.spaces| && i < |TableOf(st'.spaces[k], sc).list|
      ensures TableOf(st'.spaces[k], sc).list[i] < |st'.symbols|
      ensures Designated(st', st'.symbols[TableOf(st'.spaces[k], sc).list[i]].ns) == k
    {
      var before, after := TableOf(st.spaces[k], sc).list, TableOf(st'.spaces[k], sc).list;
      InternLists(hash, st, nsd, scope, name, value, k, sc);
      if after == before {
        assert after[i] == TableOf(st.spaces[k], sc).list[i];
      } else if i > 0 {
        assert after[i] == TableOf(st.spaces[k], sc).list[i - 1];
      }
    }
  }

  lemma StepKeepsHome<V>(hash: string -> Hash, st: State<V>, op: Op<V>)
    requires AtHome(st)
    ensures AtHome(Step(hash, st, op))
  {
    hide InternName;
    var st' := Step(hash, st, op);
    if op.InternOp? {
      if Designated(st, op.nsd) < |st.spaces| { InternKeepsHome(hash, st, op.nsd, op.scope, op.name, op.value); }
    } else {
      forall k: nat, sc, i: nat | k < |st'.spaces| && i < |TableOf(st'.spaces[k], sc).list|
        ensures TableOf(st'.spaces[k], sc).list[i] < |st'.symbols|
        ensures Designated(st', st'.symbols[TableOf(st'.spaces[k], sc).list[i]].ns) == k
      {
        assert k < |st.spaces| && TableOf(st'.spaces[k], sc).list[i] == TableOf(st.spaces[k], sc).list[i];
      }
    }
  }

  /** Over any run from the start a symbol belongs to the namespace that lists it:
      the one it was interned for, or the unnamed one if that was none. */
  lemma {:induction false} SymbolsAreAtHome<V>(hash: string -> Hash, st: State<V>, ops: seq<Op<V>>)
    requires AtHome(st)
    ensures AtHome(Initial<V>()) && AtHome(Run(hash, st, ops))
    decreases |ops|
  {
    hide Step;
    if ops != [] {
      StepKeepsHome(hash, st, ops[0]);
      SymbolsAreAtHome(hash, Step(hash, st, ops[0]), ops[1..]);
    }
  }

  /** The namespace registered under a name. */
  ghost function Registered<V>(st: State<V>, name: string): Option<nat> {
    if name in st.namespaces then Some(st.namespaces[name]) else None
  }

  /** A name maps to the first namespace of that name to be registered, from then
      on: whatever is made, registered and interned later. */
  lemma {:induction false} RegisteredForGood<V>(hash: string -> Hash, st: State<V>, ns: nat, ops: seq<Op<V>>)
    requires ns < |st.spaces| && Registered(st, st.spaces[ns].name) == None
    ensures Registered(Run(hash, AddSpace(st, ns), ops), st.spaces[ns].name) == Some(ns)
  {
    StaysRegistered(hash, AddSpace(st, ns), st.spaces[ns].name, ops);
  }

  /** A namespace that is made and registered under a free name is found by that
      name ever after. */
  lemma NewNamespaceIsFound<V>(hash: string -> Hash, st: State<V>, name: string, ops: seq<Op<V>>)
    requires Registered(st, name) == None
    ensures var ns := |st.spaces|;
            Registered(Run(hash, Step(hash, Step(hash, st, Make(name)), Add(ns)), ops), name) == Some(ns)
  {
    var made := MakeSpace(st, name);
    assert made.spaces[|st.spaces|].name == name;
    RegisteredForGood(hash, made, |st.spaces|, ops);
  }

  lemma {:induction false} StaysRegistered<V>(hash: string -> Hash, st: State<V>, name: string, ops: seq<Op<V>>)
    requires Registered(st, name).Some?
    ensures Registered(Run(hash, st, ops), name) == Registered(st, name)
    decreases |ops|
  {
    if ops != [] { StaysRegistered(hash, Step(hash, st, ops[0]), name, ops[1..]); }
  }

  // ------------------------------------------------------------------- the object

  /** The environment's namespaces, updated in place. */
  class Environment<V(==)> {
    const hash: string -> Hash
    const uninterned: nat
    var symbols: seq<Symbol<V>>
    var spaces: seq<Space>
    var namespaces: map<string, nat>

    constructor (hash: string -> Hash)
      ensures this.hash == hash && View() == Initial<V>()
    {
      this.hash, uninterned := hash, 0;
      symbols := [];
      spaces := [Space("", true, EMPTY, EMPTY), Space("system", true, EMPTY, EMPTY),
                 Space("env", true, EMPTY, EMPTY), Space("mu", true, EMPTY, EMPTY)];
      namespaces := map["env" := 2, "mu" := 3, "system" := 1];
    }

    ghost function View(): State<V>
      reads this
    {
      State(symbols, spaces, namespaces, uninterned)
    }

    method MakeNamespace(name: string) returns (ns: nat)
      modifies this
      ensures View() == MakeSpace(old(View()), name) && ns == |old(spaces)|
    {
      ns := |spaces|;
      spaces := spaces + [Space(name, false, EMPTY, EMPTY)];
    }

    /** Env::MapNamespace */
    method MapNamespace(name: string) returns (ns: Option<nat>)
      ensures ns == Registered(View(), name)
      ensures Ok(hash, View()) && ns.Some? ==>
                ns.value < |spaces| && spaces[ns.value].name == name && spaces[ns.value].cached
      ensures Ok(hash, View()) ==> forall k: nat | k < |spaces| && k != uninterned ::
                ns == Some(k) <==> spaces[k].name == name && spaces[k].cached
    {
      ns := if name in namespaces then Some(namespaces[name]) else None;
    }

    /** Env::AddNamespace */
    method AddNamespace(ns: nat)
      requires ns < |spaces|
      modifies this
      ensures View() == AddSpace(old(View()), ns)
    {
      var space := spaces[ns];
      if space.name !in namespaces {
        namespaces := namespaces[space.name := ns];
        spaces := spaces[ns := Space(space.name, true, Table(space.externs.list, map[]),
                                     Table(space.interns.list, map[]))];
      }
    }

    /** Namespace::Map */
    method MapSymbol(ns: nat, scope: Scope, name: string) returns (r: Found)
      requires ns < |spaces|
      ensures r == Map(hash, View(), ns, scope, name)
      ensures r.Hit? ==> r.sym < |symbols|
    {
      if !spaces[ns].cached { return NoCache; }
      var cache := TableOf(spaces[ns], scope).cache;
      if hash(name) !in cache { return Miss; }
      var sym := cache[hash(name)];
      if sym >= |symbols| || symbols[sym].name != name { return Collision; }
      r := Hit(sym);
    }

    /** NSCache::add_externs and add_interns: false when they throw. */
    method AddToCache(ns: nat, scope: Scope, key: Hash, sym: nat) returns (added: bool)
      requires ns < |spaces|
      modifies this`spaces
      ensures added == (key !in TableOf(old(spaces[ns]), scope).cache)
      ensures var table := TableOf(old(spaces[ns]), scope);
              var grown := WithTable(old(spaces[ns]), scope, table.(cache := table.cache[key := sym]));
              spaces == if added then old(spaces)[ns := grown] else old(spaces)
    {
      var table := TableOf(spaces[ns], scope);
      if key in table.cache { return false; }
      spaces := spaces[ns := WithTable(spaces[ns], scope, table.(cache := table.cache[key := sym]))];
      added := true;
    }

    /** Namespace::Intern */
    method InternSymbol(nsd: Option<nat>, scope: Scope, name: string, value: Option<V>) returns (r: Interned)
      requires Designated(View(), nsd) < |spaces|
      modifies this
      ensures (r, View()) == InternName(hash, old(View()), nsd, scope, name, value)
      ensures old(Ok(hash, View())) && r.Sym? ==>
                r.sym < |symbols| && symbols[r.sym].name == name &&
                symbols[r.sym].value == Bound(old(View()), r.sym, value)
    {
      hide Ok, Map, Bound;
      if Ok(hash, View()) { InternKeepsAgreement(hash, View(), nsd, scope, name, value); }
      var ns := if nsd.Some? then nsd.value else uninterned;
      var nf := MapSymbol(ns, scope, name);
      match nf
      case NoCache => r := Crash;
      case Collision => r := MapCollision;
      case Miss =>
        var sym := |symbols|;
        symbols := symbols + [Symbol(nsd, name, value)];
        var table := TableOf(spaces[ns], scope);
        spaces := spaces[ns := WithTable(spaces[ns], scope, table.(list := [sym] + table.list))];
        var added := AddToCache(ns, scope, hash(name), sym);
        assert spaces == old(spaces)[ns := spaces[ns]];
        r := if added then Sym(sym) else AddCollision;
      case Hit(sym) =>
        if symbols[sym].value.None? { symbols := symbols[sym := symbols[sym].(value := value)]; }
        r := Sym(sym);
    }
  }
}
