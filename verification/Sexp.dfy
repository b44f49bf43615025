/** Reading and printing S-expressions as token streams. */
module Sexp {
  import opened Bytes
  import opened Symbols

  /** A word, with its name as text in a token and as a symbol in a tree. */
  datatype Atom<N> = Name(name: N) | Number(n: int) | If | Do | While

  datatype Tree = Leaf(atom: Atom<Symbol>) | List(items: seq<Tree>)

  datatype Token = LParen | RParen | Word(word: Atom<string>)

  /** What one call of the reader finds: a tree, a closing parenthesis or the end of the input. */
  datatype Form = Got(tree: Tree) | Closing | EndOfInput

  /** What was read, the tokens behind it, and the symbol table afterwards. */
  datatype Reading<T> = Reading(got: T, rest: seq<Token>, table: seq<Symbol>)

  // ---------------------------------------------------------------- the reader

  /** A word becomes a leaf; a name goes through the symbol table. */
  function ReadWord(find: Lookup, w: Atom<string>, t: seq<Symbol>): (r: (Atom<Symbol>, seq<Symbol>))
    requires Finds(find)
  {
    match w
    case Name(n) => var (t', s) := Intern(find, t, n); (Name(s), t')
    case Number(n) => (Number(n), t)
    case If => (If, t)
    case Do => (Do, t)
    case While => (While, t)
  }

  /** One form. */
  function ReadForm(find: Lookup, ts: seq<Token>, t: seq<Symbol>): (r: Reading<Form>)
    requires Finds(find)
    ensures |r.rest| <= |ts| && (ts != [] ==> |r.rest| < |ts|)
    ensures r.got.EndOfInput? <==> ts == []
    decreases |ts|, 0
  {
    if ts == [] then Reading(EndOfInput, [], t)
    else
      match ts[0]
      case LParen => var r := ReadItems(find, ts[1..], t); Reading(Got(List(r.got)), r.rest, r.table)
      case RParen => Reading(Closing, ts[1..], t)
      case Word(w) => var (a, t') := ReadWord(find, w, t); Reading(Got(Leaf(a)), ts[1..], t')
  }

  /** Forms up to a closing parenthesis or the end of the input, whichever comes first. */
  function ReadItems(find: Lookup, ts: seq<Token>, t: seq<Symbol>): (r: Reading<seq<Tree>>)
    requires Finds(find)
    ensures |r.rest| <= |ts|
    decreases |ts|, 1
  {
    var r := ReadForm(find, ts, t);
    match r.got
    case Got(x) => var more := ReadItems(find, r.rest, r.table); Reading([x] + more.got, more.rest, more.table)
    case Closing => Reading([], r.rest, r.table)
    case EndOfInput => Reading([], [], r.table)
  }

  // ---------------------------------------------------------------- symbols in trees

  /** Every symbol of the tree satisfies `p`. */
  predicate Each(p: Symbol -> bool, x: Tree)
    decreases x
  {
    match x
    case Leaf(a) => a.Name? ==> p(a.name)
    case List(items) => EachOf(p, items)
  }

  predicate EachOf(p: Symbol -> bool, items: seq<Tree>)
    decreases items
  {
    items == [] || (Each(p, items[0]) && EachOf(p, items[1..]))
  }

  lemma {:induction false} EachImplies(p: Symbol -> bool, q: Symbol -> bool, x: Tree)
    requires forall s :: p(s) ==> q(s)
    ensures Each(p, x) ==> Each(q, x)
    decreases x
  {
    if x.List? { EachOfImplies(p, q, x.items); }
  }

  lemma {:induction false} EachOfImplies(p: Symbol -> bool, q: Symbol -> bool, items: seq<Tree>)
    requires forall s :: p(s) ==> q(s)
    ensures EachOf(p, items) ==> EachOf(q, items)
    decreases items
  {
    if items != [] {
      EachImplies(p, q, items[0]);
      EachOfImplies(p, q, items[1..]);
    }
  }

  function In(t: seq<Symbol>): (p: Symbol -> bool) { (s: Symbol) => s in t }

  function Fitting(): (p: Symbol -> bool) { (s: Symbol) => |s.name| <= KEY_MAX }

  /** The symbol's name fits its key and finds the symbol. */
  function Known(find: Lookup, t: seq<Symbol>): (p: Symbol -> bool) {
    (s: Symbol) => |s.name| <= KEY_MAX && find(t, s.name) == Some(s.id)
  }

  // ---------------------------------------------------------------- printing and reading back

  function Spoken(a: Atom<Symbol>): (w: Atom<string>) {
    match a
    case Name(s) => Name(s.name)
    case Number(n) => Number(n)
    case If => If
    case Do => Do
    case While => While
  }

  /** The tokens that are printed; the printer has no case for `do` and `while`. */
  function Printed(x: Tree): (ts: seq<Token>)
    decreases x
  {
    match x
    case Leaf(a) => if a.Do? || a.While? then [] else [Word(Spoken(a))]
    case List(items) => [LParen] + PrintedAll(items) + [RParen]
  }

  function PrintedAll(items: seq<Tree>): (ts: seq<Token>)
    decreases items
  {
    if items == [] then [] else Printed(items[0]) + PrintedAll(items[1..])
  }

  /** No leaf is `do` or `while`. */
  predicate Printable(x: Tree)
    decreases x
  {
    match x
    case Leaf(a) => !a.Do? && !a.While?
    case List(items) => AllPrintable(items)
  }

  predicate AllPrintable(items: seq<Tree>)
    decreases items
  {
    items == [] || (Printable(items[0]) && AllPrintable(items[1..]))
  }

  lemma KnownStays(find: Lookup, t: seq<Symbol>, s: Symbol)
    requires Finds(find) && Built(t) && Known(find, t)(s) && s in t
    ensures Intern(find, t, s.name) == (t, s)
  {
    assert Hit(t, s.name, s.id);
    var k :| 0 <= k < |t| && t[k] == s;
  }

  lemma ReadLeaf(find: Lookup, w: Atom<string>, rest: seq<Token>, t: seq<Symbol>)
    requires Finds(find)
    ensures var (a, t') := ReadWord(find, w, t);
            ReadForm(find, [Word(w)] + rest, t) == Reading(Got(Leaf(a)), rest, t')
  {
    assert ([Word(w)] + rest)[1..] == rest;
  }

  lemma ReadListStep(find: Lookup, items: seq<Tree>, rest: seq<Token>, t: seq<Symbol>)
    requires Finds(find)
    ensures var r := ReadItems(find, PrintedAll(items) + ([RParen] + rest), t);
            ReadForm(find, Printed(List(items)) + rest, t) == Reading(Got(List(r.got)), r.rest, r.table)
  {
    hide Finds;
    var inner := PrintedAll(items) + ([RParen] + rest);
    var ts := Printed(List(items)) + rest;
    assert ts == [LParen] + inner && ts[1..] == inner;
  }

  lemma ReadItemsStep(find: Lookup, items: seq<Tree>, rest: seq<Token>, t: seq<Symbol>)
    requires Finds(find) && items != []
    ensures PrintedAll(items) + ([RParen] + rest) == Printed(items[0]) + (PrintedAll(items[1..]) + ([RParen] + rest))
  {
    Regroup(Printed(items[0]), PrintedAll(items[1..]), [RParen] + rest);
  }

  lemma ReadNoItems(find: Lookup, rest: seq<Token>, t: seq<Symbol>)
    requires Finds(find)
    ensures ReadItems(find, PrintedAll([]) + ([RParen] + rest), t) == Reading([], rest, t)
  {
    hide Finds;
    Unit([RParen] + rest);
    assert ([RParen] + rest)[1..] == rest;
  }

  /** A tree whose names all find their symbols is read back, and the table stays as it is. */
  lemma {:induction false} ReadsBack(find: Lookup, x: Tree, rest: seq<Token>, t: seq<Symbol>)
    requires Finds(find) && Built(t) && Printable(x) && Each(In(t), x) && Each(Known(find, t), x)
    ensures ReadForm(find, Printed(x) + rest, t) == Reading(Got(x), rest, t)
    decreases x
  {
    hide Finds, Built;
    match x
    case Leaf(a) =>
      ReadLeaf(find, Spoken(a), rest, t);
      if a.Name? { KnownStays(find, t, a.name); }
    case List(items) =>
      ReadListStep(find, items, rest, t);
      ReadsAllBack(find, items, rest, t);
  }

  lemma {:induction false} ReadsAllBack(find: Lookup, items: seq<Tree>, rest: seq<Token>, t: seq<Symbol>)
    requires Finds(find) && Built(t) && AllPrintable(items) && EachOf(In(t), items) && EachOf(Known(find, t), items)
    ensures ReadItems(find, PrintedAll(items) + ([RParen] + rest), t) == Reading(items, rest, t)
    decreases items
  {
    hide Finds, Built;
    if items == [] {
      ReadNoItems(find, rest, t);
    } else {
      ReadItemsStep(find, items, rest, t);
      ReadsBack(find, items[0], PrintedAll(items[1..]) + ([RParen] + rest), t);
      ReadsAllBack(find, items[1..], rest, t);
      assert [items[0]] + items[1..] == items;
    }
  }

  // ---------------------------------------------------------------- nothing else reads back

  /** Reading what was printed stops behind it, whatever the names turn into. */
  lemma {:induction false} ReadsThrough(find: Lookup, x: Tree, rest: seq<Token>, t: seq<Symbol>)
    requires Finds(find) && Printable(x)
    ensures var r := ReadForm(find, Printed(x) + rest, t); r.got.Got? && r.rest == rest
    decreases x
  {
    hide Finds;
    match x
    case Leaf(a) => ReadLeaf(find, Spoken(a), rest, t);
    case List(items) =>
      ReadListStep(find, items, rest, t);
      ReadsAllThrough(find, items, rest, t);
  }

  lemma {:induction false} ReadsAllThrough(find: Lookup, items: seq<Tree>, rest: seq<Token>, t: seq<Symbol>)
    requires Finds(find) && AllPrintable(items)
    ensures ReadItems(find, PrintedAll(items) + ([RParen] + rest), t).rest == rest
    decreases items
  {
    hide Finds;
    if items == [] {
      ReadNoItems(find, rest, t);
    } else {
      var behind := PrintedAll(items[1..]) + ([RParen] + rest);
      ReadItemsStep(find, items, rest, t);
      ReadsThrough(find, items[0], behind, t);
      ReadsAllThrough(find, items[1..], rest, ReadForm(find, Printed(items[0]) + behind, t).table);
    }
  }

  lemma NameReadBack(find: Lookup, t: seq<Symbol>, s: Symbol)
    requires Finds(find) && Built(t) && s in t && Intern(find, t, s.name).1 == s
    ensures Known(find, t)(s)
  {
    var k :| 0 <= k < |t| && t[k] == s;
    assert find(t, s.name).Some?;
    assert Hit(t, s.name, find(t, s.name).value);
  }

  /** Whatever is read back had all its names known. */
  lemma {:induction false} ReadBackIsKnown(find: Lookup, x: Tree, rest: seq<Token>, t: seq<Symbol>)
    requires Finds(find) && Built(t) && Printable(x) && Each(In(t), x)
    requires ReadForm(find, Printed(x) + rest, t).got == Got(x)
    ensures Each(Known(find, t), x)
    decreases x
  {
    hide Finds, Built;
    match x
    case Leaf(a) =>
      ReadLeaf(find, Spoken(a), rest, t);
      if a.Name? { NameReadBack(find, t, a.name); }
    case List(items) =>
      ReadListStep(find, items, rest, t);
      ItemsBackAreKnown(find, items, rest, t);
  }

  lemma {:induction false} ItemsBackAreKnown(find: Lookup, items: seq<Tree>, rest: seq<Token>, t: seq<Symbol>)
    requires Finds(find) && Built(t) && AllPrintable(items) && EachOf(In(t), items)
    requires ReadItems(find, PrintedAll(items) + ([RParen] + rest), t).got == items
    ensures EachOf(Known(find, t), items)
    decreases items
  {
    hide Finds, Built;
    if items != [] {
      var behind := PrintedAll(items[1..]) + ([RParen] + rest);
      ReadItemsStep(find, items, rest, t);
      ReadsThrough(find, items[0], behind, t);
      var r := ReadForm(find, Printed(items[0]) + behind, t);
      var more := ReadItems(find, behind, r.table);
      assert ([r.got.tree] + more.got)[0] == r.got.tree && ([r.got.tree] + more.got)[1..] == more.got;
      ReadBackIsKnown(find, items[0], behind, t);
      ReadsBack(find, items[0], behind, t);
      ItemsBackAreKnown(find, items[1..], rest, t);
    }
  }

  function Leaves(x: Tree): (n: nat)
    decreases x
  {
    match x case Leaf(_) => 1 case List(items) => LeavesAll(items)
  }

  function LeavesAll(items: seq<Tree>): (n: nat)
    decreases items
  {
    if items == [] then 0 else Leaves(items[0]) + LeavesAll(items[1..])
  }

  function Words(ts: seq<Token>): (n: nat) {
    if ts == [] then 0 else (if ts[0].Word? then 1 else 0) + Words(ts[1..])
  }

  lemma {:induction false} WordsAppend(a: seq<Token>, b: seq<Token>)
    ensures Words(a + b) == Words(a) + Words(b)
  {
    if a == [] {
      Unit(b);
    } else {
      assert (a + b)[1..] == a[1..] + b;
      WordsAppend(a[1..], b);
    }
  }

  lemma {:induction false} PrintedWords(x: Tree)
    ensures Words(Printed(x)) <= Leaves(x) && (Words(Printed(x)) == Leaves(x) <==> Printable(x))
    decreases x
  {
    match x
    case Leaf(a) =>
      var ts := [Word(Spoken(a))];
      assert Words(ts) == 1 + Words(ts[1..]);
    case List(items) =>
      PrintedWordsAll(items);
      WordsAppend([LParen] + PrintedAll(items), [RParen]);
      WordsAppend([LParen], PrintedAll(items));
      assert Words([LParen]) == Words([LParen][1..]) && Words([RParen]) == Words([RParen][1..]);
  }

  lemma {:induction false} PrintedWordsAll(items: seq<Tree>)
    ensures Words(PrintedAll(items)) <= LeavesAll(items)
    ensures Words(PrintedAll(items)) == LeavesAll(items) <==> AllPrintable(items)
    decreases items
  {
    if items != [] {
      PrintedWords(items[0]);
      PrintedWordsAll(items[1..]);
      WordsAppend(Printed(items[0]), PrintedAll(items[1..]));
    }
  }

  lemma {:induction false} FormWords(find: Lookup, ts: seq<Token>, t: seq<Symbol>)
    requires Finds(find)
    ensures var r := ReadForm(find, ts, t);
            Words(r.rest) + (if r.got.Got? then Leaves(r.got.tree) else 0) == Words(ts)
    decreases |ts|, 0
  {
    hide Finds;
    if ts != [] && ts[0].LParen? { ItemsWords(find, ts[1..], t); }
  }

  lemma {:induction false} ItemsWords(find: Lookup, ts: seq<Token>, t: seq<Symbol>)
    requires Finds(find)
    ensures var r := ReadItems(find, ts, t); Words(r.rest) + LeavesAll(r.got) == Words(ts)
    decreases |ts|, 1
  {
    hide Finds;
    var r := ReadForm(find, ts, t);
    FormWords(find, ts, t);
    if r.got.Got? {
      ItemsWords(find, r.rest, r.table);
      var more := ReadItems(find, r.rest, r.table).got;
      assert ([r.got.tree] + more)[1..] == more;
    }
  }

  /** In every symbol table and for every tree of its symbols: the printed tokens are read back as
      that tree exactly when no leaf is `do` or `while`, every name has at most 31 bytes, and every
      name finds its own symbol. */
  lemma RoundTripExactly(find: Lookup, x: Tree, t: seq<Symbol>)
    requires Finds(find) && Built(t) && Each(In(t), x)
    ensures ReadForm(find, Printed(x), t).got == Got(x) <==> Printable(x) && Each(Known(find, t), x)
  {
    hide Finds, Built;
    Unit(Printed(x));
    if Printable(x) {
      if Each(Known(find, t), x) {
        ReadsBack(find, x, [], t);
      } else if ReadForm(find, Printed(x), t).got == Got(x) {
        ReadBackIsKnown(find, x, [], t);
      }
    } else {
      PrintedWords(x);
      FormWords(find, Printed(x), t);
    }
  }

  // ---------------------------------------------------------------- which names find their symbols

  /** No longer name in the table begins with this one. */
  function Unshared(t: seq<Symbol>): (p: Symbol -> bool) {
    (s: Symbol) => forall i :: 0 <= i < |t| && |t[i].name| > KEY_MAX ==> t[i].name[..KEY_MAX] != s.name
  }

  /** Where no longer name shares their first 31 bytes, having at most 31 bytes is all names need. */
  lemma RoundTripUnshared(find: Lookup, x: Tree, t: seq<Symbol>)
    requires Finds(find) && Built(t) && Each(In(t), x) && Each(Unshared(t), x)
    ensures ReadForm(find, Printed(x), t).got == Got(x) <==> Printable(x) && Each(Fitting(), x)
  {
    RoundTripExactly(find, x, t);
    UnsharedAreKnown(find, x, t);
    EachImplies(Known(find, t), Fitting(), x);
  }

  lemma {:induction false} UnsharedAreKnown(find: Lookup, x: Tree, t: seq<Symbol>)
    requires Finds(find) && Built(t) && Each(In(t), x) && Each(Unshared(t), x)
    ensures Each(Fitting(), x) ==> Each(Known(find, t), x)
    decreases x
  {
    hide Finds, Built;
    match x
    case Leaf(a) =>
      if a.Name? && Fitting()(a.name) { FoundUnlessShared(find, t, a.name); }
    case List(items) => UnsharedItemsAreKnown(find, items, t);
  }

  lemma {:induction false} UnsharedItemsAreKnown(find: Lookup, items: seq<Tree>, t: seq<Symbol>)
    requires Finds(find) && Built(t) && EachOf(In(t), items) && EachOf(Unshared(t), items)
    ensures EachOf(Fitting(), items) ==> EachOf(Known(find, t), items)
    decreases items
  {
    hide Finds, Built;
    if items != [] {
      UnsharedAreKnown(find, items[0], t);
      UnsharedItemsAreKnown(find, items[1..], t);
    }
  }

  lemma ReadWordBuilds(find: Lookup, w: Atom<string>, t: seq<Symbol>)
    requires Finds(find) && Built(t)
    ensures var (a, t') := ReadWord(find, w, t); Built(t') && t <= t' && (a.Name? ==> a.name in t')
    ensures var (a, t') := ReadWord(find, w, t); Faithful(t) && (a.Name? ==> |a.name.name| <= KEY_MAX) ==> Faithful(t')
  {
    if w.Name? {
      InternKeepsBuilt(find, t, w.name);
      InternIsInterned(find, t, w.name);
      if Faithful(t) && |w.name| <= KEY_MAX {
        InternKeepsFaith(t, w.name, Intern(find, t, w.name).0, Intern(find, t, w.name).1);
      }
    }
  }

  /** What is read consists of symbols of the table afterwards, which only grew; and it stays
      faithful if every name read fits. */
  lemma {:induction false} FormBuilds(find: Lookup, ts: seq<Token>, t: seq<Symbol>)
    requires Finds(find) && Built(t)
    ensures var r := ReadForm(find, ts, t);
            && Built(r.table) && t <= r.table
            && (r.got.Got? ==> Each(In(r.table), r.got.tree))
            && (Faithful(t) && (r.got.Got? ==> Each(Fitting(), r.got.tree)) ==> Faithful(r.table))
    decreases |ts|, 0
  {
    hide Finds, Built, Faithful;
    if ts != [] {
      match ts[0]
      case LParen => ItemsBuild(find, ts[1..], t);
      case RParen =>
      case Word(w) => ReadWordBuilds(find, w, t);
    }
  }

  lemma {:induction false} ItemsBuild(find: Lookup, ts: seq<Token>, t: seq<Symbol>)
    requires Finds(find) && Built(t)
    ensures var r := ReadItems(find, ts, t);
            && Built(r.table) && t <= r.table && EachOf(In(r.table), r.got)
            && (Faithful(t) && EachOf(Fitting(), r.got) ==> Faithful(r.table))
    decreases |ts|, 1
  {
    hide Finds, Built, Faithful;
    var r := ReadForm(find, ts, t);
    FormBuilds(find, ts, t);
    if r.got.Got? {
      var more := ReadItems(find, r.rest, r.table);
      ItemsBuild(find, r.rest, r.table);
      EachImplies(In(r.table), In(more.table), r.got.tree);
      assert ([r.got.tree] + more.got)[1..] == more.got;
    }
  }

  /** From a table whose names all fit: what any tokens are read as comes back from being printed and
      read again exactly when no leaf is `do` or `while` and every name has at most 31 bytes. */
  lemma ReadAgainExactly(find: Lookup, ts: seq<Token>, t: seq<Symbol>)
    requires Finds(find) && Faithful(t) && ReadForm(find, ts, t).got.Got?
    ensures var r := ReadForm(find, ts, t); var x := r.got.tree;
            ReadForm(find, Printed(x), r.table).got == Got(x) <==> Printable(x) && Each(Fitting(), x)
  {
    var r := ReadForm(find, ts, t);
    var x := r.got.tree;
    FormBuilds(find, ts, t);
    RoundTripExactly(find, x, r.table);
    EachImplies(Known(find, r.table), Fitting(), x);
    if Each(Fitting(), x) {
      EachImplies(In(r.table), Unshared(r.table), x);
      UnsharedAreKnown(find, x, r.table);
    }
  }

  /** A name of more than 31 bytes, then its first 31: reading (l p) gives (l l), whatever the search. */
  lemma {:induction false} LongThenPrefix(find: Lookup, l: string, t: seq<Symbol>)
    requires Finds(find) && |l| > KEY_MAX && forall i :: 0 <= i < |t| ==> Key(t[i].name) != l[..KEY_MAX]
    ensures var ts := [LParen, Word(Name(l)), Word(Name(l[..KEY_MAX])), RParen];
            var s := Symbol(l, |t|);
            ReadForm(find, ts, t).got == Got(List([Leaf(Name(s)), Leaf(Name(s))]))
  {
    var p, s := l[..KEY_MAX], Symbol(l, |t|);
    var t' := t + [s];
    assert forall i :: !Hit(t, l, i);
    assert Intern(find, t, l) == (t', s);
    assert Hit(t', p, |t|);
    forall i | 0 <= i < |t| ensures !Hit(t', p, i) {
      assert t'[i] == t[i];
    }
    assert Intern(find, t', p) == (t', s);
    hide Finds;
    var ts := [LParen, Word(Name(l)), Word(Name(p)), RParen];
    var a, b, c := ts[1..], ts[2..], ts[3..];
    assert a == [Word(Name(l))] + b && b == [Word(Name(p))] + c && c == [RParen] + [];
    ReadLeaf(find, Name(l), b, t);
    ReadLeaf(find, Name(p), c, t');
    assert ReadItems(find, c, t') == Reading([], c[1..], t');
    assert ReadItems(find, b, t').got == [Leaf(Name(s))] + [];
    assert ReadItems(find, a, t).got == [Leaf(Name(s))] + ReadItems(find, b, t').got;
    assert ReadItems(find, a, t).got == [Leaf(Name(s)), Leaf(Name(s))];
    assert ts[0] == LParen && ReadForm(find, ts, t).got == Got(List(ReadItems(find, a, t).got));
  }

  // ---------------------------------------------------------------- every word becomes its leaf

  /** The leaves of a tree from left to right. */
  function LeavesOf(x: Tree): (r: seq<Atom<Symbol>>)
    decreases x
  {
    match x case Leaf(a) => [a] case List(items) => LeavesOfAll(items)
  }

  function LeavesOfAll(items: seq<Tree>): (r: seq<Atom<Symbol>>)
    decreases items
  {
    if items == [] then [] else LeavesOf(items[0]) + LeavesOfAll(items[1..])
  }

  /** The words of a token stream in order. */
  function WordsOf(ts: seq<Token>): (r: seq<Atom<string>>) {
    if ts == [] then [] else (if ts[0].Word? then [ts[0].word] else []) + WordsOf(ts[1..])
  }

  /** The leaf of a word: the same number or key word; for a name a symbol with that name, or with a
      longer one that begins with it. */
  predicate LeafOf(a: Atom<Symbol>, w: Atom<string>) {
    match w
    case Number(n) => a.Number? && a.n == n
    case If => a.If?
    case Do => a.Do?
    case While => a.While?
    case Name(n) => a.Name? && (a.name.name == n || (|n| == 31 && |a.name.name| > 31 && a.name.name[..31] == n))
  }

  /** The words consumed between `before` and `after`, one by one, are those of the leaves. */
  ghost predicate LeavesAre(leaves: seq<Atom<Symbol>>, before: seq<Token>, after: seq<Token>) {
    && |leaves| <= |WordsOf(before)| && WordsOf(before)[|leaves|..] == WordsOf(after)
    && forall i :: 0 <= i < |leaves| ==> LeafOf(leaves[i], WordsOf(before)[i])
  }

  lemma WordIsItsLeaf(find: Lookup, w: Atom<string>, t: seq<Symbol>)
    requires Finds(find)
    ensures LeafOf(ReadWord(find, w, t).0, w)
  {
    if w.Name? && find(t, w.name).Some? { assert Hit(t, w.name, find(t, w.name).value); }
  }

  /** For every token stream, the leaves of what is read are the words consumed, in order. */
  lemma {:induction false} FormLeaves(find: Lookup, ts: seq<Token>, t: seq<Symbol>)
    requires Finds(find)
    ensures var r := ReadForm(find, ts, t);
            LeavesAre(if r.got.Got? then LeavesOf(r.got.tree) else [], ts, r.rest)
    decreases |ts|, 0
  {
    hide Finds, ReadWord, LeafOf, LeavesAre;
    NoLeaves(ts);
    if ts != [] {
      match ts[0]
      case LParen =>
        ItemsLeaves(find, ts[1..], t);
        ParenIsNoLeaf(LeavesOfAll(ReadItems(find, ts[1..], t).got), ts, ReadItems(find, ts[1..], t).rest);
      case RParen =>
        NoLeaves(ts[1..]);
        ParenIsNoLeaf([], ts, ts[1..]);
      case Word(w) =>
        WordIsItsLeaf(find, w, t);
        OneLeaf(ReadWord(find, w, t).0, ts);
    }
  }

  lemma NoLeaves(ts: seq<Token>)
    ensures LeavesAre([], ts, ts)
  {
  }

  lemma ParenIsNoLeaf(leaves: seq<Atom<Symbol>>, ts: seq<Token>, after: seq<Token>)
    requires ts != [] && !ts[0].Word? && LeavesAre(leaves, ts[1..], after)
    ensures LeavesAre(leaves, ts, after)
  {
    Unit(WordsOf(ts[1..]));
  }

  lemma OneLeaf(a: Atom<Symbol>, ts: seq<Token>)
    requires ts != [] && ts[0].Word? && LeafOf(a, ts[0].word)
    ensures LeavesAre([a], ts, ts[1..])
  {
    hide LeafOf;
    assert WordsOf(ts)[1..] == WordsOf(ts[1..]);
  }

  lemma {:induction false} ItemsLeaves(find: Lookup, ts: seq<Token>, t: seq<Symbol>)
    requires Finds(find)
    ensures var r := ReadItems(find, ts, t); LeavesAre(LeavesOfAll(r.got), ts, r.rest)
    decreases |ts|, 1
  {
    hide Finds, ReadWord, LeafOf, LeavesAre;
    var r := ReadForm(find, ts, t);
    FormLeaves(find, ts, t);
    if r.got.Got? {
      var more := ReadItems(find, r.rest, r.table);
      ItemsLeaves(find, r.rest, r.table);
      assert ([r.got.tree] + more.got)[1..] == more.got;
      LeavesJoin(LeavesOf(r.got.tree), LeavesOfAll(more.got), ts, r.rest, more.rest);
    }
  }

  lemma LeavesJoin(a: seq<Atom<Symbol>>, b: seq<Atom<Symbol>>, before: seq<Token>, mid: seq<Token>, after: seq<Token>)
    requires LeavesAre(a, before, mid) && LeavesAre(b, mid, after)
    ensures LeavesAre(a + b, before, after)
  {
    hide WordsOf, LeafOf;
    var w := WordsOf(before);
    assert w[|a|..][|b|..] == w[|a| + |b|..];
    forall i | 0 <= i < |a + b| ensures LeafOf((a + b)[i], w[i]) {
      if i >= |a| { assert (a + b)[i] == b[i - |a|] && w[i] == w[|a|..][i - |a|]; }
    }
  }

  // ---------------------------------------------------------------- lists left open

  /** Where `depth` open lists end: behind their last closing parenthesis, or still open in number. */
  datatype Nesting = Shut(rest: seq<Token>) | Open(depth: nat)

  function Nest(ts: seq<Token>, depth: nat): (n: Nesting)
    decreases |ts|
  {
    if depth == 0 then Shut(ts)
    else if ts == [] then Open(depth)
    else Nest(ts[1..], if ts[0].LParen? then depth + 1 else if ts[0].RParen? then depth - 1 else depth)
  }

  function Closers(j: nat): (ts: seq<Token>)
    ensures |ts| == j && forall i :: 0 <= i < j ==> ts[i] == RParen
  {
    if j == 0 then [] else [RParen] + Closers(j - 1)
  }

  /** Inner lists are closed before outer ones. */
  lemma {:induction false} NestSplit(ts: seq<Token>, inner: nat, outer: nat)
    ensures Nest(ts, inner + outer)
            == if Nest(ts, inner).Shut? then Nest(Nest(ts, inner).rest, outer) else Open(Nest(ts, inner).depth + outer)
    decreases |ts|
  {
    if inner > 0 && ts != [] {
      NestSplit(ts[1..], if ts[0].LParen? then inner + 1 else if ts[0].RParen? then inner - 1 else inner, outer);
    }
  }

  /** The tokens left once `j` closing parentheses have been put behind a stream. */
  function LeftOver(n: Nesting, j: nat): (ts: seq<Token>) {
    match n
    case Shut(rest) => rest + Closers(j)
    case Open(k) => if j <= k then [] else Closers(j - k)
  }

  /** Closing parentheses behind a stream change nothing that is read from it; as many as there are
      lists open are consumed. */
  lemma {:induction false} ClosersChangeNothing(find: Lookup, ts: seq<Token>, j: nat, t: seq<Symbol>)
    requires Finds(find)
    ensures var r := ReadItems(find, ts, t);
            ReadItems(find, ts + Closers(j), t) == Reading(r.got, LeftOver(Nest(ts, 1), j), r.table)
    decreases |ts|, 1
  {
    hide Finds;
    if ts == [] {
      Unit(Closers(j));
      if j > 0 {
        assert Closers(j)[1..] == Closers(j - 1);
        assert ReadForm(find, Closers(j), t) == Reading(Closing, Closers(j - 1), t);
      }
    } else {
      var ts' := ts + Closers(j);
      assert ts'[0] == ts[0] && ts'[1..] == ts[1..] + Closers(j);
      if ts[0].LParen? {
        ClosersInside(find, ts, j, t);
      } else if ts[0].RParen? {
        assert Nest(ts[1..], 0) == Shut(ts[1..]);
      } else {
        ClosersChangeNothing(find, ts[1..], j, ReadWord(find, ts[0].word, t).1);
      }
    }
  }

  lemma {:induction false} ClosersInside(find: Lookup, ts: seq<Token>, j: nat, t: seq<Symbol>)
    requires Finds(find) && ts != [] && ts[0].LParen?
    ensures var r := ReadItems(find, ts, t);
            ReadItems(find, ts + Closers(j), t) == Reading(r.got, LeftOver(Nest(ts, 1), j), r.table)
    decreases |ts|, 0
  {
    hide Finds;
    var ts', body := ts + Closers(j), ts[1..];
    assert ts'[0] == ts[0] && ts'[1..] == body + Closers(j);
    var inner := Nest(body, 1);
    var t' := ReadItems(find, body, t).table;
    ClosersChangeNothing(find, body, j, t);
    NestSplit(body, 1, 1);
    NestRest(body, 1);
    ItemsRest(find, body, t);
    if inner.Shut? {
      ClosersChangeNothing(find, inner.rest, j, t');
    } else {
      var k := inner.depth;
      Unit(Closers(if j <= k then 0 else j - k));
      ClosersChangeNothing(find, [], if j <= k then 0 else j - k, t');
    }
  }

  lemma {:induction false} NestRest(ts: seq<Token>, depth: nat)
    ensures Nest(ts, depth).Shut? ==> |Nest(ts, depth).rest| <= |ts|
    decreases |ts|
  {
    if depth > 0 && ts != [] {
      NestRest(ts[1..], if ts[0].LParen? then depth + 1 else if ts[0].RParen? then depth - 1 else depth);
    }
  }

  /** The reader stops where the nesting says. */
  lemma {:induction false} ItemsRest(find: Lookup, ts: seq<Token>, t: seq<Symbol>)
    requires Finds(find)
    ensures ReadItems(find, ts, t).rest == if Nest(ts, 1).Shut? then Nest(ts, 1).rest else []
    decreases |ts|
  {
    hide Finds;
    if ts != [] {
      if ts[0].LParen? {
        var body := ts[1..];
        ItemsRest(find, body, t);
        NestSplit(body, 1, 1);
        NestRest(body, 1);
        if Nest(body, 1).Shut? { ItemsRest(find, Nest(body, 1).rest, ReadItems(find, body, t).table); }
      } else if ts[0].RParen? {
        assert Nest(ts[1..], 0) == Shut(ts[1..]);
      } else {
        ItemsRest(find, ts[1..], ReadWord(find, ts[0].word, t).1);
      }
    }
  }

  /** A list cut off with `k` lists open reads as the list with the `k` closing parentheses supplied,
      which are then just used up. */
  lemma CutOff(find: Lookup, ts: seq<Token>, t: seq<Symbol>)
    requires Finds(find) && ts != [] && ts[0].LParen? && Nest(ts[1..], 1).Open?
    ensures ReadForm(find, ts + Closers(Nest(ts[1..], 1).depth), t) == ReadForm(find, ts, t)
  {
    hide Finds;
    var k := Nest(ts[1..], 1).depth;
    var ts' := ts + Closers(k);
    assert ts'[0] == ts[0] && ts'[1..] == ts[1..] + Closers(k);
    ClosersChangeNothing(find, ts[1..], k, t);
    ItemsRest(find, ts[1..], t);
  }

  // ---------------------------------------------------------------- the scanner

  class Scanner {
    const find: Lookup
    const tokens: seq<Token>
    var pos: nat
    var symbols: seq<Symbol>

    constructor (find: Lookup, tokens: seq<Token>, symbols: seq<Symbol>)
      requires Finds(find)
      ensures Valid() && this.find == find && Rest() == tokens && this.symbols == symbols
    {
      this.find, this.tokens, this.symbols := find, tokens, symbols;
      pos := 0;
    }

    ghost predicate Valid()
      reads this
    {
      pos <= |tokens| && Finds(find)
    }

    ghost function Rest(): (ts: seq<Token>)
      requires Valid()
      reads this
    {
      tokens[pos..]
    }

    method Form() returns (f: Form)
      requires Valid()
      modifies this
      ensures Valid() && Reading(f, Rest(), symbols) == ReadForm(find, old(Rest()), old(symbols))
      decreases |tokens| - pos, 0
    {
      hide Finds, ReadItems;
      if pos == |tokens| { return EndOfInput; }
      var tok := tokens[pos];
      assert Rest()[0] == tok && Rest()[1..] == tokens[pos + 1..];
      pos := pos + 1;
      match tok
      case LParen =>
        var items := Items();
        f := Got(List(items));
      case RParen => f := Closing;
      case Word(w) =>
        var a;
        a, symbols := ReadWord(find, w, symbols).0, ReadWord(find, w, symbols).1;
        f := Got(Leaf(a));
    }

    /** The loop of read_list, extending the list at its end. */
    method Items() returns (items: seq<Tree>)
      requires Valid()
      modifies this
      ensures Valid() && Reading(items, Rest(), symbols) == ReadItems(find, old(Rest()), old(symbols))
      decreases |tokens| - pos, 1
    {
      hide Finds, ReadForm;
      ghost var whole := ReadItems(find, Rest(), symbols);
      items := [];
      Unit(whole.got);
      while true
        invariant Valid() && pos >= old(pos)
        invariant var r := ReadItems(find, Rest(), symbols); whole == Reading(items + r.got, r.rest, r.table)
        decreases |tokens| - pos
      {
        ghost var before := Rest();
        var form := Form();
        match form
        case Got(x) =>
          Regroup(items, [x], ReadItems(find, Rest(), symbols).got);
          items := items + [x];
        case Closing =>
          Unit(items);
          return;
        case EndOfInput =>
          Unit(items);
          return;
      }
    }
  }
}
