/** Contexts: dense symbol ids indexing growable arrays, against the history of writes by name. */
module Environment {
  import opened Bytes
  import opened Symbols

  datatype Value = ContextValue(ctx: Context) | SymbolValue(sym: Symbol) | Datum(tag: int)

  /** An entry of an array, absent beyond its end. */
  function Nth<T>(s: seq<Option<T>>, i: nat): (x: Option<T>) { if i < |s| then s[i] else None }

  /** One context with the parent it keeps for life; an absent entry is a null pointer. */
  class Context {
    const parent: Context?
    ghost const rank: nat
    var vals: array<Option<Value>>
    var keys: array<Option<Symbol>>
    var writeToParent: bool

    constructor (parent: Context?)
      ensures this.parent == parent && rank == (if parent == null then 0 else parent.rank + 1) && !writeToParent
      ensures fresh(vals) && fresh(keys) && keys.Length == vals.Length
      ensures vals.Length == if parent == null then 8 else parent.vals.Length
      ensures forall i :: 0 <= i < vals.Length ==> vals[i] == None && keys[i] == None
    {
      this.parent := parent;
      rank := if parent == null then 0 else parent.rank + 1;
      var count := if parent == null then 8 else parent.vals.Length;
      vals := new Option<Value>[count](_ => None);
      keys := new Option<Symbol>[count](_ => None);
      writeToParent := false;
    }

    /** The value under an id, absent beyond the end of the array. */
    ghost function At(id: nat): (v: Option<Value>)
      reads this, vals
    {
      Nth(vals[..], id)
    }

    ghost function KeyAt(id: nat): (k: Option<Symbol>)
      reads this, keys
    {
      Nth(keys[..], id)
    }

    /** Makes room for `id`, eight places further than needed. */
    method Grow(id: nat)
      requires keys.Length == vals.Length <= id
      modifies this`vals, this`keys
      ensures fresh(vals) && fresh(keys) && keys.Length == vals.Length == id + 8
      ensures forall i: nat :: At(i) == old(At(i)) && KeyAt(i) == old(KeyAt(i))
    {
      var oldVals, oldKeys := vals, keys;
      var oldCount := vals.Length;
      vals := new Option<Value>[id + 8](_ => None);
      keys := new Option<Symbol>[id + 8](_ => None);
      var i := 0;
      while i < oldCount
        invariant 0 <= i <= oldCount && vals.Length == keys.Length == id + 8
        invariant fresh(vals) && fresh(keys)
        invariant forall k :: 0 <= k < i ==> vals[k] == oldVals[k] && keys[k] == oldKeys[k]
        invariant forall k :: i <= k < id + 8 ==> vals[k] == None && keys[k] == None
        invariant oldVals[..] == old(vals[..]) && oldKeys[..] == old(keys[..])
      {
        vals[i] := oldVals[i];
        keys[i] := oldKeys[i];
        i := i + 1;
      }
    }

    /** Puts a value under the id of a symbol, growing the arrays first if they are too short. */
    method Put(key: Symbol, val: Option<Value>)
      requires keys.Length == vals.Length
      modifies this`vals, this`keys, vals, keys
      ensures keys.Length == vals.Length && key.id < vals.Length
      ensures (vals == old(vals) && keys == old(keys)) || (fresh(vals) && fresh(keys))
      ensures forall i: nat :: At(i) == if i == key.id then val else old(At(i))
      ensures forall i: nat :: KeyAt(i) == if i == key.id then Some(key) else old(KeyAt(i))
    {
      if key.id >= vals.Length { Grow(key.id); }
      keys[key.id] := Some(key);
      vals[key.id] := val;
    }
  }

  // ---------------------------------------------------------------- the plain reading

  /** A value, or null, put under a name in a context. */
  datatype Write = Write(ctx: Context, name: string, val: Option<Value>)

  /** What was written last under this name in this context. */
  ghost function Last(log: seq<Write>, c: Context, name: string): (v: Option<Value>) {
    if log == [] then None
    else
      var w := log[|log| - 1];
      if w.ctx == c && w.name == name then w.val else Last(log[..|log| - 1], c, name)
  }

  lemma LastAppend(log: seq<Write>, w: Write, c: Context, name: string)
    ensures Last(log + [w], c, name) == if w.ctx == c && w.name == name then w.val else Last(log, c, name)
  {
    assert (log + [w])[..|log|] == log;
  }

  /** Parents are there and older, and so are the contexts stored as values. */
  ghost predicate World(world: set<Context>, log: seq<Write>) {
    (forall c :: c in world && c.parent != null ==> c.parent in world && c.parent.rank < c.rank)
    && forall i :: 0 <= i < |log| ==>
        (log[i].val.Some? && log[i].val.value.ContextValue? ==> log[i].val.value.ctx in world)
  }

  lemma {:induction false} LastInWorld(world: set<Context>, log: seq<Write>, c: Context, name: string)
    requires World(world, log) && Last(log, c, name).Some? && Last(log, c, name).value.ContextValue?
    ensures Last(log, c, name).value.ctx in world
  {
    var n := |log| - 1;
    if !(log[n].ctx == c && log[n].name == name) { LastInWorld(world, log[..n], c, name); }
  }

  /** Where "::" first occurs. */
  function Colons(s: string): (r: Option<nat>)
    ensures r.Some? ==> r.value + 2 <= |s| && s[r.value] == ':' && s[r.value + 1] == ':'
    ensures r.Some? ==> forall i :: 0 <= i < r.value ==> s[i] != ':' || s[i + 1] != ':'
    ensures r.None? ==> forall i :: 0 <= i < |s| - 1 ==> s[i] != ':' || s[i + 1] != ':'
  {
    if |s| < 2 then None
    else if s[0] == ':' && s[1] == ':' then Some(0)
    else match Colons(s[1..]) case None => None case Some(i) => assert s[1..][i] == s[i + 1]; Some(i + 1)
  }

  predicate Quoted(name: string) { name != "" && name[0] == '\'' }

  predicate Plain(name: string) { !Quoted(name) && Colons(name) == None }

  /** `Quote` is the answer to a quoted name; `Undefined` is a "::" behind something that is no context. */
  datatype Answer = Is(val: Value) | Nothing | Quote(name: string) | Undefined

  /** The meaning of a name in a context, over nothing but the history of writes. */
  ghost function Resolve(world: set<Context>, log: seq<Write>, c: Context, name: string): (a: Answer)
    requires World(world, log) && c in world
    ensures a.Is? && a.val.ContextValue? ==> a.val.ctx in world
    decreases |name|, c.rank
  {
    if Quoted(name) then Quote(name[1..])
    else
      match Colons(name)
      case Some(i) =>
        var outer := Resolve(world, log, c, name[..i]);
        if outer.Nothing? then Nothing
        else if outer.Is? && outer.val.ContextValue? then Resolve(world, log, outer.val.ctx, name[i + 2..])
        else Undefined
      case None =>
        match Last(log, c, name)
        case Some(v) => LastInWorldIf(world, log, c, name); Is(v)
        case None => if c.parent != null then Resolve(world, log, c.parent, name) else Nothing
  }

  lemma LastInWorldIf(world: set<Context>, log: seq<Write>, c: Context, name: string)
    requires World(world, log)
    ensures Last(log, c, name).Some? && Last(log, c, name).value.ContextValue? ==> Last(log, c, name).value.ctx in world
  {
    if Last(log, c, name).Some? && Last(log, c, name).value.ContextValue? { LastInWorld(world, log, c, name); }
  }

  // ---------------------------------------------------------------- what the reading means

  /** The context `k` levels further out. */
  ghost function Up(world: set<Context>, log: seq<Write>, c: Context, k: nat): (u: Option<Context>)
    requires World(world, log) && c in world
    ensures u.Some? ==> u.value in world
    decreases c.rank
  {
    if k == 0 then Some(c) else if c.parent == null then None else Up(world, log, c.parent, k - 1)
  }

  lemma {:induction false} UpIsOlder(world: set<Context>, log: seq<Write>, c: Context, k: nat)
    requires World(world, log) && c in world
    ensures Up(world, log, c, k).Some? ==> Up(world, log, c, k).value.rank <= c.rank
    decreases k
  {
    if k > 0 && c.parent != null { UpIsOlder(world, log, c.parent, k - 1); }
  }

  ghost predicate BoundAt(world: set<Context>, log: seq<Write>, c: Context, name: string, k: nat)
    requires World(world, log) && c in world
  {
    Up(world, log, c, k).Some? && Last(log, Up(world, log, c, k).value, name).Some?
  }

  /** A plain name means the value last written in the nearest enclosing context where that value
      is not null; it means nothing exactly when there is no such context. */
  lemma {:induction false} NearestEnclosing(world: set<Context>, log: seq<Write>, c: Context, name: string)
    requires World(world, log) && c in world && Plain(name)
    ensures forall k: nat ::
              (BoundAt(world, log, c, name, k) && forall j: nat :: j < k ==> !BoundAt(world, log, c, name, j))
              ==> Resolve(world, log, c, name) == Is(Last(log, Up(world, log, c, k).value, name).value)
    ensures Resolve(world, log, c, name) == Nothing <==> forall k: nat :: !BoundAt(world, log, c, name, k)
    decreases c.rank
  {
    assert BoundAt(world, log, c, name, 0) <==> Last(log, c, name).Some?;
    if Last(log, c, name).None? && c.parent != null {
      NearestEnclosing(world, log, c.parent, name);
      assert forall k: nat :: k > 0 ==>
             (BoundAt(world, log, c, name, k) <==> BoundAt(world, log, c.parent, name, k - 1));
      assert forall k: nat :: BoundAt(world, log, c, name, k + 1) <==> BoundAt(world, log, c.parent, name, k);
    }
  }

  /** A write shows under its own name only: in its context at once, and in contexts inside it as far
      as nothing nearer hides it, and nowhere outside it. Writing null uncovers the enclosing binding again. */
  lemma {:induction false} WriteSeen(world: set<Context>, log: seq<Write>, w: Write, c: Context, name: string)
    requires World(world, log) && World(world, log + [w]) && c in world && Plain(name)
    ensures name != w.name ==> Resolve(world, log + [w], c, name) == Resolve(world, log, c, name)
    ensures name == w.name && c == w.ctx && w.val.Some? ==> Resolve(world, log + [w], c, name) == Is(w.val.value)
    ensures name == w.name && c == w.ctx && w.val.None? ==>
              Resolve(world, log + [w], c, name) == if c.parent == null then Nothing
                  else Resolve(world, log, c.parent, name)
    ensures Last(log, c, name).Some? && c != w.ctx ==>
            Resolve(world, log + [w], c, name) == Resolve(world, log, c, name)
    ensures (forall k: nat :: Up(world, log, c, k) != Some(w.ctx)) ==>
              Resolve(world, log + [w], c, name) == Resolve(world, log, c, name)
    decreases c.rank
  {
    LastAppend(log, w, c, name);
    assert Up(world, log, c, 0) == Some(c);
    if c.parent != null {
      WriteSeen(world, log, w, c.parent, name);
      assert forall k: nat :: Up(world, log, c, k + 1) == Up(world, log, c.parent, k);
      forall k: nat | c == w.ctx ensures Up(world, log, c.parent, k) != Some(w.ctx) {
        UpIsOlder(world, log, c.parent, k);
      }
    }
  }

  /** A quoted name means the symbol of what stands behind the quote. */
  lemma QuotedName(world: set<Context>, log: seq<Write>, c: Context, name: string)
    requires World(world, log) && c in world
    ensures Resolve(world, log, c, "'" + name) == Quote(name)
  {
    assert ("'" + name)[1..] == name;
  }

  /** A qualified name means the last part, looked up in the context that the first parts mean. */
  ghost function Within(world: set<Context>, log: seq<Write>, outer: Answer, name: string): (a: Answer)
    requires World(world, log) && (outer.Is? && outer.val.ContextValue? ==> outer.val.ctx in world)
  {
    if outer.Nothing? then Nothing
    else if outer.Is? && outer.val.ContextValue? then Resolve(world, log, outer.val.ctx, name)
    else Undefined
  }

  /** No part of a qualified name is quoted. */
  predicate Unquoted(name: string)
    decreases |name|
  {
    !Quoted(name) && match Colons(name) case None => true case Some(i) => Unquoted(name[i + 2..])
  }

  lemma {:induction false} Qualified(world: set<Context>, log: seq<Write>, c: Context, p: string, q: string)
    requires World(world, log) && c in world
    requires Unquoted(p) && (p != "" ==> p[|p| - 1] != ':')
    ensures Resolve(world, log, c, p + "::" + q) == Within(world, log, Resolve(world, log, c, p), q)
    decreases |p|
  {
    var s := p + "::" + q;
    ColonsOfJoined(p, q);
    JoinedWhole(p, q);
    if Colons(p).Some? {
      var i := Colons(p).value;
      JoinedSlices(p, q, i);
      var outer, inner := Resolve(world, log, c, p[..i]), p[i + 2..];
      if outer.Is? && outer.val.ContextValue? {
        Qualified(world, log, outer.val.ctx, inner, q);
      }
    }
  }

  lemma ColonsIs(s: string, m: nat)
    requires m + 2 <= |s| && s[m] == ':' && s[m + 1] == ':'
    requires forall i :: 0 <= i < m ==> s[i] != ':' || s[i + 1] != ':'
    ensures Colons(s) == Some(m)
  {
    hide Colons;
    assert s[m] == ':' && s[m + 1] == ':';
  }

  lemma JoinedSlices(p: string, q: string, i: nat)
    requires i + 2 <= |p|
    ensures var s := p + "::" + q; s[..i] == p[..i] && s[i + 2..] == p[i + 2..] + "::" + q
  {
  }

  lemma JoinedWhole(p: string, q: string)
    ensures var s := p + "::" + q; |s| == |p| + 2 + |q| && s[..|p|] == p && s[|p| + 2..] == q
    ensures var s := p + "::" + q; s[|p|] == ':' && s[|p| + 1] == ':' && forall i :: 0 <= i < |p| ==> s[i] == p[i]
  {
  }

  lemma ColonsOfJoined(p: string, q: string)
    requires p != "" ==> p[|p| - 1] != ':'
    ensures var s := p + "::" + q;
            Colons(s) == Some(match Colons(p) case None => |p| case Some(i) => i)
    ensures Colons(p).Some? ==> Colons(p).value + 2 < |p|
  {
    hide Colons;
    var s := p + "::" + q;
    JoinedWhole(p, q);
    var m := match Colons(p) case None => |p| case Some(i) => i;
    assert s[m] == ':' && s[m + 1] == ':';
    forall i | 0 <= i < m ensures s[i] != ':' || s[i + 1] != ':' {
      assert s[i] == p[i] && (i + 1 < |p| ==> s[i + 1] == p[i + 1]);
    }
    ColonsIs(s, m);
  }

  // ---------------------------------------------------------------- the arrays

  /** Names are numbered 0 to |names| - 1 and the table inverts that numbering. */
  ghost predicate Numbered(names: seq<string>, table: map<string, Symbol>) {
    (forall i :: 0 <= i < |names| ==> names[i] in table && table[names[i]] == Symbol.Symbol(names[i], i))
    && forall n :: n in table ==> |n| <= KEY_MAX && table[n].id < |names| && names[table[n].id] == n
  }

  /** The arrays of one context hold, under the id of each name, what was last written under that
      name, and nothing under ids not given out yet. */
  ghost predicate Holding(vals: seq<Option<Value>>, keys: seq<Option<Symbol>>,
                          c: Context, table: map<string, Symbol>, last: nat, log: seq<Write>) {
    |keys| == |vals|
    && (forall i: nat :: i >= last ==> Nth(vals, i) == None)
    && (forall n :: n in table ==> Nth(vals, table[n].id) == Last(log, c, n))
    && (forall n :: n in table && Nth(vals, table[n].id).Some? ==> Nth(keys, table[n].id) == Some(table[n]))
  }

  ghost predicate Holds(c: Context, table: map<string, Symbol>, last: nat, log: seq<Write>)
    reads c, c.vals, c.keys
  {
    Holding(c.vals[..], c.keys[..], c, table, last, log)
  }

  lemma NumberedNames(names: seq<string>, table: map<string, Symbol>)
    requires Numbered(names, table)
    ensures forall n :: n in table <==> n in names
    ensures forall n :: n in table ==> table[n].name == n && |n| <= KEY_MAX && table[n].id < |names|
  {
    forall n | n in table ensures n in names && table[n].name == n {
      assert names[table[n].id] == n;
    }
  }

  lemma NumberedAdd(names: seq<string>, table: map<string, Symbol>, name: string)
    requires Numbered(names, table) && name !in table && |name| <= KEY_MAX
    ensures Numbered(names + [name], table[name := Symbol.Symbol(name, |names|)])
  {
  }

  lemma HoldsAdd(c: Context, names: seq<string>, table: map<string, Symbol>, log: seq<Write>, name: string)
    requires Holds(c, table, |names|, log) && Last(log, c, name) == None
    ensures Holds(c, table[name := Symbol.Symbol(name, |names|)], |names| + 1, log)
  {
  }

  /** No two contexts share an array. */
  ghost predicate Apart(world: set<Context>)
    reads world
  {
    forall c, d :: c in world && d in world && c != d ==> c.vals != d.vals && c.keys != d.keys
  }

  lemma ApartFrom(world: set<Context>, t: Context)
    requires Apart(world) && t in world
    ensures forall d :: d in world && d != t ==> d.vals != t.vals && d.keys != t.keys
  {
  }

  lemma WorldWrite(world: set<Context>, log: seq<Write>, w: Write)
    requires World(world, log) && (w.val.Some? && w.val.value.ContextValue? ==> w.val.value.ctx in world)
    ensures World(world, log + [w])
  {
  }

  lemma WorldParent(world: set<Context>, log: seq<Write>, c: Context)
    requires World(world, log) && c in world
    ensures c.parent != null ==> c.parent in world && c.parent.rank < c.rank
  {
  }

  /** The context a write to `c` goes to. */
  ghost function Target(c: Context): (t: Context)
    reads c
  {
    if c.writeToParent && c.parent != null then c.parent else c
  }

  lemma LengthsAgree(c: Context, table: map<string, Symbol>, last: nat, log: seq<Write>)
    requires Holds(c, table, last, log)
    ensures c.keys.Length == c.vals.Length
  {
  }

  lemma HoldsNew(c: Context, table: map<string, Symbol>, last: nat, log: seq<Write>)
    requires c.keys.Length == c.vals.Length && forall i :: 0 <= i < c.vals.Length ==> c.vals[i] == None
    requires forall i :: 0 <= i < |log| ==> log[i].ctx != c
    ensures Holds(c, table, last, log)
  {
    forall n | n in table ensures Last(log, c, n) == None {
      NeverWritten(log, c, n);
    }
  }

  lemma {:induction false} NeverWritten(log: seq<Write>, c: Context, name: string)
    requires forall i :: 0 <= i < |log| ==> log[i].ctx != c
    ensures Last(log, c, name) == None
  {
    if log != [] { NeverWritten(log[..|log| - 1], c, name); }
  }

  lemma HoldsElsewhere(c: Context, table: map<string, Symbol>, last: nat, log: seq<Write>, w: Write)
    requires Holds(c, table, last, log) && w.ctx != c
    ensures Holds(c, table, last, log + [w])
  {
    hide Last;
    forall n | n in table ensures Last(log + [w], c, n) == Last(log, c, n) {
      LastAppend(log, w, c, n);
    }
  }

  lemma HoldsWritten(vals: seq<Option<Value>>, keys: seq<Option<Symbol>>, c: Context, names: seq<string>,
                     table: map<string, Symbol>, log: seq<Write>, key: Symbol, val: Option<Value>)
    requires Holding(vals, keys, c, table, |names|, log) && Numbered(names, table)
    requires key.name in table && table[key.name] == key
    requires c.keys.Length == c.vals.Length
    requires forall i: nat :: c.At(i) == if i == key.id then val else Nth(vals, i)
    requires forall i: nat :: c.KeyAt(i) == if i == key.id then Some(key) else Nth(keys, i)
    ensures Holds(c, table, |names|, log + [Write(c, key.name, val)])
  {
    hide Last, Nth;
    var w := Write(c, key.name, val);
    var vals', keys' := c.vals[..], c.keys[..];
    forall n | n in table
      ensures Nth(vals', table[n].id) == Last(log + [w], c, n)
      ensures Nth(vals', table[n].id).Some? ==> Nth(keys', table[n].id) == Some(table[n])
    {
      LastAppend(log, w, c, n);
      assert names[table[n].id] == n && names[key.id] == key.name;
      assert c.At(table[n].id) == Nth(vals', table[n].id) && c.KeyAt(table[n].id) == Nth(keys', table[n].id);
    }
    forall i: nat | i >= |names| ensures Nth(vals', i) == None {
      assert table[key.name].id < |names| && c.At(i) == Nth(vals', i);
    }
  }

  lemma HoldsAt(c: Context, table: map<string, Symbol>, last: nat, log: seq<Write>, key: Symbol)
    requires Holds(c, table, last, log) && key.name in table && table[key.name] == key
    ensures Last(log, c, key.name) == if key.id < c.vals.Length then c.vals[key.id] else None
  {
  }

  /** Later states of the symbol table keep every symbol and its number. */
  ghost predicate Later(names: seq<string>, table: map<string, Symbol>,
      names': seq<string>, table': map<string, Symbol>) {
    names <= names' && forall n :: n in table ==> n in table' && table'[n] == table[n]
  }

  lemma LaterStill(n0: seq<string>, t0: map<string, Symbol>, n1: seq<string>, t1: map<string, Symbol>,
                   n2: seq<string>, t2: map<string, Symbol>)
    requires Later(n0, t0, n1, t1) && Later(n1, t1, n2, t2)
    ensures Later(n0, t0, n2, t2)
  {
  }

  /** What the lookup hands back: a value, a null pointer, or the undefined behaviour of reading
      something else as a context. */
  datatype Reply = Found(val: Value) | NotFound | Broken

  ghost predicate Answers(r: Reply, a: Answer, table: map<string, Symbol>) {
    (a.Is? ==> r == Found(a.val))
    && (a.Nothing? ==> r == NotFound)
    && (a.Undefined? ==> r == Broken)
    && (a.Quote? ==> a.name in table && r == Found(SymbolValue(table[a.name])))
  }

  lemma ResolveStep(world: set<Context>, log: seq<Write>, c: Context, name: string)
    requires World(world, log) && c in world
    ensures Quoted(name) ==> Resolve(world, log, c, name) == Quote(name[1..])
    ensures !Quoted(name) && Colons(name).Some? ==>
              var i := Colons(name).value;
              Resolve(world, log, c, name) == Within(world, log, Resolve(world, log, c, name[..i]), name[i + 2..])
    ensures Plain(name) && Last(log, c, name).Some? ==> Resolve(world, log, c, name) == Is(Last(log, c, name).value)
    ensures Plain(name) && Last(log, c, name).None? && c.parent == null ==> Resolve(world, log, c, name) == Nothing
    ensures Plain(name) && Last(log, c, name).None? && c.parent != null ==>
              c.parent in world && Resolve(world, log, c, name) == Resolve(world, log, c.parent, name)
  {
  }

  class Runtime {
    var symbolTable: map<string, Symbol>
    var lastSymId: nat
    ghost var names: seq<string>
    ghost var world: set<Context>
    ghost var log: seq<Write>

    ghost predicate Valid()
      reads this, world, set c | c in world :: c.vals, set c | c in world :: c.keys
    {
      Numbered(names, symbolTable) && lastSymId == |names|
      && World(world, log)
      && (forall i :: 0 <= i < |log| ==> log[i].ctx in world && log[i].name in symbolTable)
      && (forall c :: c in world ==> Holds(c, symbolTable, lastSymId, log))
      && Apart(world)
    }

    constructor ()
      ensures Valid() && names == [] && world == {} && log == []
    {
      symbolTable, lastSymId, names, world, log := map[], 0, [], {}, [];
    }

    predicate Known(key: Symbol)
      reads this
    {
      key.name in symbolTable && symbolTable[key.name] == key
    }

    /** The symbol of a name, numbered next if the name is new; no value anywhere changes. */
    method MkSymbol(name: string) returns (r: Symbol)
      requires Valid() && |name| <= KEY_MAX
      modifies this`symbolTable, this`lastSymId, this`names
      ensures Valid()
      ensures Known(r) && r.name == name
      ensures names == if name in old(names) then old(names) else old(names) + [name]
      ensures Later(old(names), old(symbolTable), names, symbolTable)
    {
      hide Holds, Numbered, World;
      NumberedNames(names, symbolTable);
      if name in symbolTable {
        r := symbolTable[name];
      } else {
        r := Symbol.Symbol(name, lastSymId);
        UnwrittenIsNone(log, name);
        NumberedAdd(names, symbolTable, name);
        forall c | c in world ensures Holds(c, symbolTable[name := r], lastSymId + 1, log) {
          HoldsAdd(c, names, symbolTable, log, name);
        }
        lastSymId := lastSymId + 1;
        symbolTable := symbolTable[name := r];
        names := names + [name];
      }
    }

    /** A new context inside `parent`, with as many places as the parent has and all of them empty. */
    method NewContext(parent: Context?) returns (c: Context)
      requires Valid() && (parent != null ==> parent in world)
      modifies this`world
      ensures Valid() && fresh(c) && world == old(world) + {c}
      ensures c.parent == parent && !c.writeToParent
    {
      hide Holds, Numbered, Last;
      c := new Context(parent);
      HoldsNew(c, symbolTable, lastSymId, log);
      world := world + {c};
    }

    /** Binds in the context itself, or in its parent when writes go there. */
    method Set(c: Context, key: Symbol, val: Option<Value>)
      requires Valid() && c in world && Known(key) && (c.writeToParent ==> c.parent != null)
      requires val.Some? && val.value.ContextValue? ==> val.value.ctx in world
      modifies this`log, Target(c)`vals, Target(c)`keys, Target(c).vals, Target(c).keys
      ensures Valid() && c.writeToParent == old(c.writeToParent)
      ensures c.writeToParent ==> log == old(log) + [Write(c.parent, key.name, val)]
      ensures !c.writeToParent ==> log == old(log) + [Write(c, key.name, val)]
      ensures Plain(key.name) && val.Some? ==>
                var t := if c.writeToParent then c.parent else c;
                t in world && Resolve(world, log, t, key.name) == Is(val.value)
      ensures Plain(key.name) && val.None? ==>
                var t := if c.writeToParent then c.parent else c;
                && t in world && (t.parent != null ==> t.parent in world)
                && Resolve(world, log, t, key.name)
                   == if t.parent == null then Nothing else Resolve(world, old(log), t.parent, key.name)
    {
      hide Holds, Numbered, Last, World, Apart, Resolve, Plain;
      var t := c;
      if c.writeToParent { t := c.parent; }
      WorldParent(world, log, c);
      ghost var before := log;
      SetIn(t, key, val);
      WorldParent(world, before, t);
      if Plain(key.name) { WriteSeen(world, before, Write(t, key.name, val), t, key.name); }
    }

    method SetIn(t: Context, key: Symbol, val: Option<Value>)
      requires Valid() && t in world && Known(key)
      requires val.Some? && val.value.ContextValue? ==> val.value.ctx in world
      modifies this`log, t`vals, t`keys, t.vals, t.keys
      ensures Valid() && log == old(log) + [Write(t, key.name, val)]
    {
      hide Holding, Numbered, Last, World, Nth;
      LengthsAgree(t, symbolTable, lastSymId, log);
      ApartFrom(world, t);
      ghost var w := Write(t, key.name, val);
      ghost var vals, keys := t.vals[..], t.keys[..];
      WorldWrite(world, log, w);
      t.Put(key, val);
      assert Apart(world);
      HoldsWritten(vals, keys, t, names, symbolTable, log, key, val);
      forall d | d in world && d != t ensures Holds(d, symbolTable, lastSymId, log + [w]) {
        HoldsElsewhere(d, symbolTable, lastSymId, log, w);
      }
      assert forall d :: d in world ==> Holds(d, symbolTable, lastSymId, log + [w]);
      log := log + [w];
    }

    /** Looks a symbol up: the arrays give what the history of writes says. Parts of a qualified or
        quoted name are interned on the way; no value and no older symbol changes. */
    method Get(c: Context, key: Symbol) returns (r: Reply)
      requires Valid() && c in world && Known(key)
      modifies this`symbolTable, this`lastSymId, this`names
      ensures Valid() && Answers(r, Resolve(world, log, c, key.name), symbolTable)
      ensures Later(old(names), old(symbolTable), names, symbolTable)
      decreases |key.name|, c.rank, 1
    {
      hide Holds, Numbered, Last, World, Apart, Resolve;
      NumberedNames(names, symbolTable);
      ResolveStep(world, log, c, key.name);
      if Quoted(key.name) {
        var s := MkSymbol(key.name[1..]);
        return Found(SymbolValue(s));
      }
      if Colons(key.name).Some? {
        r := GetQualified(c, key);
        return;
      }
      HoldsAt(c, symbolTable, lastSymId, log, key);
      var v := None;
      if key.id < c.vals.Length { v := c.vals[key.id]; }
      if v.Some? { return Found(v.value); }
      if c.parent != null {
        WorldParent(world, log, c);
        r := Get(c.parent, key);
      } else {
        r := NotFound;
      }
    }

    method GetQualified(c: Context, key: Symbol) returns (r: Reply)
      requires Valid() && c in world && Known(key) && !Quoted(key.name) && Colons(key.name).Some?
      modifies this`symbolTable, this`lastSymId, this`names
      ensures Valid() && Answers(r, Resolve(world, log, c, key.name), symbolTable)
      ensures Later(old(names), old(symbolTable), names, symbolTable)
      decreases |key.name|, c.rank, 0
    {
      hide Holds, Numbered, Last, World, Apart, Resolve, Colons, Later;
      NumberedNames(names, symbolTable);
      ResolveStep(world, log, c, key.name);
      var at := Colons(key.name).value;
      var outerKey := MkSymbol(key.name[..at]);
      ghost var n1, t1 := names, symbolTable;
      var outer := Get(c, outerKey);
      LaterStill(old(names), old(symbolTable), n1, t1, names, symbolTable);
      if outer.NotFound? { return NotFound; }
      ghost var n2, t2 := names, symbolTable;
      var innerKey := MkSymbol(key.name[at + 2..]);
      LaterStill(old(names), old(symbolTable), n2, t2, names, symbolTable);
      if outer.Found? && outer.val.ContextValue? {
        ghost var n3, t3 := names, symbolTable;
        r := Get(outer.val.ctx, innerKey);
        LaterStill(old(names), old(symbolTable), n3, t3, names, symbolTable);
      } else {
        r := Broken;
      }
    }
  }

  lemma {:induction false} UnwrittenIsNone(log: seq<Write>, name: string)
    requires forall i :: 0 <= i < |log| ==> log[i].name != name
    ensures forall c :: Last(log, c, name) == None
  {
    if log != [] { UnwrittenIsNone(log[..|log| - 1], name); }
  }
}
