/** Interning names: the symbol table of bl_mk_symbol.

    The table keeps the first 31 bytes of a name as its key but is searched with the whole name. */
module Symbols {
  import opened Bytes

  const KEY_MAX := 31

  datatype Symbol = Symbol(name: string, id: nat)

  function Key(name: string): (k: string)
    ensures |k| <= KEY_MAX
  {
    if |name| <= KEY_MAX then name else name[..KEY_MAX]
  }

  predicate Hit(t: seq<Symbol>, name: string, i: int) {
    0 <= i < |t| && Key(t[i].name) == name
  }

  /** One call on the table `t` of symbols in order of creation: some entry under that key if there
      is one, a new symbol otherwise. */
  ghost predicate Interned(t: seq<Symbol>, name: string, t': seq<Symbol>, r: Symbol) {
    if exists i :: Hit(t, name, i) then t' == t && exists i :: Hit(t, name, i) && r == t[i]
    else r == Symbol(name, |t|) && t' == t + [r]
  }

  /** Ids are the positions 0 to |t| - 1, every name fits its key, and no name occurs twice. */
  ghost predicate Faithful(t: seq<Symbol>) {
    (forall i :: 0 <= i < |t| ==> t[i].id == i && |t[i].name| <= KEY_MAX)
    && forall i, j :: 0 <= i < |t| && 0 <= j < |t| && t[i].name == t[j].name ==> i == j
  }

  lemma InternKeepsFaith(t: seq<Symbol>, name: string, t': seq<Symbol>, r: Symbol)
    requires Faithful(t) && |name| <= KEY_MAX && Interned(t, name, t', r)
    ensures Faithful(t') && t <= t' && r.name == name && r in t'
  {
    if exists i :: Hit(t, name, i) {
    } else {
      assert t'[|t|] == r;
      forall i | 0 <= i < |t| ensures t[i].name != name {
        assert !Hit(t, name, i);
      }
    }
  }

  /** A run of calls: `ts[i]` is the table before the i-th call and `rs[i]` its result. */
  ghost predicate Run(ts: seq<seq<Symbol>>, names: seq<string>, rs: seq<Symbol>) {
    |ts| == |names| + 1 && |rs| == |names| && ts[0] == []
    && forall i :: 0 <= i < |names| ==> Interned(ts[i], names[i], ts[i + 1], rs[i])
  }

  lemma {:induction false} RunGrows(ts: seq<seq<Symbol>>, names: seq<string>, rs: seq<Symbol>, k: nat)
    requires Run(ts, names, rs) && k <= |names|
    requires forall i :: 0 <= i < |names| ==> |names[i]| <= KEY_MAX
    ensures Faithful(ts[k])
    ensures forall i :: 0 <= i < k ==> rs[i].name == names[i] && rs[i] in ts[k]
    ensures forall s :: s in ts[k] ==> s.name in names[..k]
  {
    if k > 0 {
      RunGrows(ts, names, rs, k - 1);
      InternKeepsFaith(ts[k - 1], names[k - 1], ts[k], rs[k - 1]);
      assert names[..k] == names[..k - 1] + [names[k - 1]];
    }
  }

  /** In every run with names of at most 31 bytes, two results are the same symbol exactly when the
      names are the same, ids run from 0 without gaps, and the table holds the names asked for. */
  lemma SymbolsAreNames(ts: seq<seq<Symbol>>, names: seq<string>, rs: seq<Symbol>)
    requires Run(ts, names, rs)
    requires forall i :: 0 <= i < |names| ==> |names[i]| <= KEY_MAX
    ensures forall i, j :: 0 <= i < |names| && 0 <= j < |names| ==> (rs[i] == rs[j] <==> names[i] == names[j])
    ensures forall i, j :: 0 <= i < |names| && 0 <= j < |names| ==> (rs[i].id == rs[j].id <==> names[i] == names[j])
    ensures var t := ts[|names|];
            (forall i :: 0 <= i < |t| ==> t[i].id == i)
            && (set s <- t :: s.name) == (set n <- names)
  {
    var t := ts[|names|];
    RunGrows(ts, names, rs, |names|);
    assert names[..|names|] == names;
    forall i | 0 <= i < |names| ensures t[rs[i].id] == rs[i] && names[i] in (set s <- t :: s.name) {
      var k :| 0 <= k < |t| && t[k] == rs[i];
    }
  }

  // ---------------------------------------------------------------- any table

  /** A search of the table by name. Several entries may have the same key; which of them is found
      depends on the state of the hash table, which the order of creation determines. */
  type Lookup = (seq<Symbol>, string) -> Option<nat>

  ghost predicate Finds(find: Lookup) {
    forall t, name ::
      && (find(t, name).Some? ==> Hit(t, name, find(t, name).value))
      && (find(t, name).None? ==> forall i :: !Hit(t, name, i))
  }

  /** bl_mk_symbol with a given search: the table afterwards and the symbol. */
  function Intern(find: Lookup, t: seq<Symbol>, name: string): (r: (seq<Symbol>, Symbol))
    requires Finds(find)
  {
    match find(t, name)
    case Some(i) => (t, t[i])
    case None => var s := Symbol(name, |t|); (t + [s], s)
  }

  lemma InternIsInterned(find: Lookup, t: seq<Symbol>, name: string)
    requires Finds(find)
    ensures Interned(t, name, Intern(find, t, name).0, Intern(find, t, name).1)
  {
    match find(t, name)
    case Some(i) => assert Hit(t, name, i);
    case None =>
  }

  /** The search that takes the entry made last, where a new entry goes to the front of its chain. */
  function Newest(t: seq<Symbol>, name: string): (r: Option<nat>) {
    if t == [] then None
    else if Hit(t, name, |t| - 1) then Some(|t| - 1)
    else Newest(t[..|t| - 1], name)
  }

  lemma {:induction false} NewestHits(t: seq<Symbol>, name: string)
    ensures Newest(t, name).Some? ==> Hit(t, name, Newest(t, name).value)
    ensures Newest(t, name).None? ==> forall i :: !Hit(t, name, i)
  {
    if t != [] && !Hit(t, name, |t| - 1) {
      var u := t[..|t| - 1];
      NewestHits(u, name);
      forall i | Hit(t, name, i) ensures Hit(u, name, i) {
        assert u[i] == t[i];
      }
    }
  }

  lemma NewestFinds()
    ensures Finds(Newest)
  {
    forall t: seq<Symbol>, name: string
      ensures Newest(t, name).Some? ==> Hit(t, name, Newest(t, name).value)
      ensures Newest(t, name).None? ==> forall i :: !Hit(t, name, i)
    {
      NewestHits(t, name);
    }
  }

  /** What every run of calls keeps: ids are positions, and a name that fits its key was made only
      where no entry had that key. */
  ghost predicate Built(t: seq<Symbol>) {
    (forall i :: 0 <= i < |t| ==> t[i].id == i)
    && forall i, j :: 0 <= i < j < |t| && |t[j].name| <= KEY_MAX ==> Key(t[i].name) != t[j].name
  }

  lemma InternKeepsBuilt(find: Lookup, t: seq<Symbol>, name: string)
    requires Finds(find) && Built(t)
    ensures var (t', s) := Intern(find, t, name); Built(t') && t <= t' && s in t'
  {
    if find(t, name).None? {
      forall i | 0 <= i < |t| ensures Key(t[i].name) != name {
        assert !Hit(t, name, i);
      }
      assert (t + [Symbol(name, |t|)])[|t|] == Symbol(name, |t|);
    } else {
      assert Hit(t, name, find(t, name).value);
    }
  }

  /** A symbol whose name fits is found under that name, unless a longer name begins with it. */
  lemma FoundUnlessShared(find: Lookup, t: seq<Symbol>, s: Symbol)
    requires Finds(find) && Built(t) && s in t && |s.name| <= KEY_MAX
    requires forall i :: 0 <= i < |t| && |t[i].name| > KEY_MAX ==> t[i].name[..KEY_MAX] != s.name
    ensures find(t, s.name) == Some(s.id)
  {
    var k :| 0 <= k < |t| && t[k] == s;
    assert Hit(t, s.name, k);
    var i := find(t, s.name).value;
    assert Hit(t, s.name, i) && |t[i].name| <= KEY_MAX;
  }

  /** The limit is exact in every table and for every search: asking twice for a name gives one
      symbol if and only if it has at most 31 bytes. */
  lemma SameSymbolExactly(find: Lookup, t: seq<Symbol>, name: string)
    requires Finds(find)
    ensures var (t1, first) := Intern(find, t, name); var (t2, second) := Intern(find, t1, name);
            first == second <==> |name| <= KEY_MAX
  {
    var (t1, first) := Intern(find, t, name);
    if find(t, name).None? {
      forall i | 0 <= i < |t| ensures !Hit(t1, name, i) {
        assert t1[i] == t[i] && !Hit(t, name, i);
      }
      if |name| <= KEY_MAX {
        assert Hit(t1, name, |t|);
      } else {
        assert |Key(name)| == KEY_MAX;
      }
    } else {
      assert Hit(t, name, find(t, name).value);
    }
  }

  /** A longer name made earlier answers for its first 31 bytes; otherwise the name is right. */
  lemma RightNameExactly(t: seq<Symbol>, name: string)
    ensures (forall t', r :: Interned(t, name, t', r) ==> r.name == name)
            <==> (forall i :: 0 <= i < |t| && |t[i].name| > KEY_MAX ==> t[i].name[..KEY_MAX] != name)
  {
    if i :| 0 <= i < |t| && |t[i].name| > KEY_MAX && t[i].name[..KEY_MAX] == name {
      assert Hit(t, name, i);
      assert Interned(t, name, t, t[i]) && t[i].name != name;
    } else {
      forall t', r | Interned(t, name, t', r) ensures r.name == name {
        if exists i :: Hit(t, name, i) {
          var i :| Hit(t, name, i) && r == t[i];
        }
      }
    }
  }
}
