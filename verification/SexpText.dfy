/** S-expressions as text: the printer and the word rules of the lexer. */
module SexpText {
  import opened Bytes
  import opened Symbols
  import opened Sexp

  // ---------------------------------------------------------------- words

  predicate Digit(c: char) { '0' <= c <= '9' }

  predicate WordChar(c: char) {
    Digit(c) || 'a' <= c <= 'z' || 'A' <= c <= 'Z'
    || c == '@' || c == '_' || c == '%' || c == ':' || c == '=' || c == '*' || c == '-' || c == '/' || c == '+'
  }

  /** How many word characters stand at the front. */
  function Run(s: string): (n: nat)
    ensures n <= |s|
  {
    if s == "" || !WordChar(s[0]) then 0 else 1 + Run(s[1..])
  }

  /** Length of the longest word at the front, which a quote may open; zero if there is none. */
  function WordLength(s: string): (n: nat)
    ensures n <= |s|
  {
    if s != "" && s[0] == '\'' then (if Run(s[1..]) == 0 then 0 else 1 + Run(s[1..])) else Run(s)
  }

  predicate Digits(s: string) { s != "" && forall i :: 0 <= i < |s| ==> Digit(s[i]) }

  /** Any number of minus signs, then digits. */
  predicate IsInteger(s: string) {
    Digits(s) || (s != "" && s[0] == '-' && IsInteger(s[1..]))
  }

  function Value(s: string): (n: nat)
    requires Digits(s)
  {
    if |s| == 1 then (s[0] as int) - ('0' as int)
    else 10 * Value(s[..|s| - 1]) + (s[|s| - 1] as int) - ('0' as int)
  }

  /** The number read: at most one sign is understood, anything else leaves it zero. */
  function IntegerValue(s: string): (n: int)
    requires IsInteger(s)
  {
    if Digits(s) then Value(s) else if Digits(s[1..]) then 0 - Value(s[1..]) as int else 0
  }

  /** Which rule takes a word: numbers before key words before names. */
  function AtomOf(word: string): (a: Atom<string>) {
    if IsInteger(word) then Number(IntegerValue(word))
    else if word == "if" then If
    else if word == "do" then Do
    else if word == "while" then While
    else Name(word)
  }

  /** The tokens up to the first double quote or semicolon, where strings and comments would start. */
  function Lex(s: string): (ts: seq<Token>)
    decreases |s|
  {
    if s == "" || s[0] == '"' || s[0] == ';' then []
    else if s[0] == '(' then [LParen] + Lex(s[1..])
    else if s[0] == ')' then [RParen] + Lex(s[1..])
    else if WordLength(s) > 0 then [Word(AtomOf(s[..WordLength(s)]))] + Lex(s[WordLength(s)..])
    else Lex(s[1..])
  }

  // ---------------------------------------------------------------- printing

  function Decimal(n: nat): (s: string) {
    if n < 10 then [DigitOf(n)] else Decimal(n / 10) + [DigitOf(n % 10)]
  }

  function DigitOf(d: nat): (c: char)
    requires d < 10
  {
    ('0' as int + d) as char
  }

  function IntegerText(n: int): (s: string) { if n < 0 then "-" + Decimal(-n) else Decimal(n) }

  function AtomText(a: Atom<Symbol>): (s: string) {
    match a
    case Name(s) => s.name
    case Number(n) => IntegerText(n)
    case If => "if"
    case Do => ""
    case While => ""
  }

  function Text(t: Tree): (s: string)
    decreases t
  {
    match t
    case Leaf(a) => AtomText(a)
    case List(items) => "(" + Join(items) + ")"
  }

  /** The texts with a space between each two. */
  function Join(items: seq<Tree>): (s: string)
    decreases items
  {
    if items == [] then ""
    else if |items| == 1 then Text(items[0])
    else Text(items[0]) + " " + Join(items[1..])
  }

  /** The texts with a space behind each, as the printing loop leaves them. */
  function Spaced(items: seq<Tree>): (s: string)
    decreases items
  {
    if items == [] then "" else Text(items[0]) + " " + Spaced(items[1..])
  }

  lemma {:induction false} SpacedIsJoined(items: seq<Tree>)
    requires items != []
    ensures Spaced(items) == Join(items) + " "
  {
    if |items| == 1 {
      assert Spaced(items[1..]) == "";
    } else {
      SpacedIsJoined(items[1..]);
      var x, y := Text(items[0]) + " ", Join(items[1..]);
      assert x + (y + " ") == (x + y) + " ";
    }
  }

  /** The printer: texts are appended with a space, and the last space becomes the closing parenthesis. */
  method Serialize(t: Tree) returns (s: string)
    ensures s == Text(t)
    decreases t
  {
    match t
    case Leaf(a) => s := AtomText(a);
    case List(items) =>
      if items == [] { return "()"; }
      s := "(";
      var i := 0;
      assert items[0..] == items;
      while i < |items|
        invariant 0 <= i <= |items|
        invariant s + Spaced(items[i..]) == "(" + Spaced(items)
      {
        var newval := Serialize(items[i]);
        Regroup(s, newval + " ", Spaced(items[i + 1..]));
        Regroup(s, newval, " ");
        assert items[i..][1..] == items[i + 1..];
        s := s + newval;
        s := s + " ";
        i := i + 1;
      }
      SpacedIsJoined(items);
      assert items[i..] == [];
      Unit(s);
      Regroup("(", Join(items), " ");
      s := s[..|s| - 1] + ")";
  }

  // ---------------------------------------------------------------- one word

  /** A whole word, taken as one token. */
  predicate WholeWord(w: string) { w != "" && WordLength(w) == |w| }

  /** Nothing that would make a word longer. */
  predicate Apart(rest: string) { rest == "" || !WordChar(rest[0]) }

  lemma {:induction false} RunStops(w: string, rest: string)
    requires Run(w) == |w| && Apart(rest)
    ensures Run(w + rest) == |w|
  {
    if w == "" {
      Unit(rest);
    } else {
      assert (w + rest)[1..] == w[1..] + rest;
      RunStops(w[1..], rest);
    }
  }

  lemma LexWord(w: string, rest: string)
    requires WholeWord(w) && Apart(rest)
    ensures Lex(w + rest) == [Word(AtomOf(w))] + Lex(rest)
  {
    var s := w + rest;
    assert s[0] == w[0];
    if w[0] == '\'' {
      assert s[1..] == w[1..] + rest;
      RunStops(w[1..], rest);
    } else {
      RunStops(w, rest);
    }
    assert s[..|w|] == w && s[|w|..] == rest;
  }

  lemma {:induction false} RunAll(s: string)
    requires forall i :: 0 <= i < |s| ==> WordChar(s[i])
    ensures Run(s) == |s|
  {
    if s != "" { RunAll(s[1..]); }
  }

  lemma {:induction false} DecimalReads(n: nat)
    ensures Digits(Decimal(n)) && Value(Decimal(n)) == n
  {
    if n >= 10 {
      DecimalReads(n / 10);
      assert Decimal(n)[..|Decimal(n)| - 1] == Decimal(n / 10);
    }
  }

  lemma NumberReads(n: int)
    ensures WholeWord(IntegerText(n)) && AtomOf(IntegerText(n)) == Number(n)
  {
    var s := IntegerText(n);
    if n < 0 {
      DecimalReads(-n);
      assert s[0] == '-' && s[1..] == Decimal(-n);
      assert !Digits(s) && IsInteger(s[1..]);
    } else {
      DecimalReads(n);
    }
    RunAll(s);
  }

  /** A name that the lexer would itself give out as a name. */
  predicate GoodName(name: string) { WholeWord(name) && AtomOf(name) == Name(name) }

  function Good(): (p: Symbol -> bool) { (s: Symbol) => GoodName(s.name) }

  // ---------------------------------------------------------------- whole trees

  lemma LexAtom(a: Atom<Symbol>, rest: string)
    requires (a.Name? ==> GoodName(a.name.name)) && Apart(rest)
    ensures Lex(AtomText(a) + rest) == Printed(Leaf(a)) + Lex(rest)
  {
    hide Lex, IsInteger;
    if a.Do? || a.While? {
      Unit(rest);
      Unit(Lex(rest));
    } else if a.If? {
      IfIsAWord();
      LexWord("if", rest);
    } else if a.Number? {
      NumberReads(a.n);
      LexWord(AtomText(a), rest);
    } else {
      LexWord(a.name.name, rest);
    }
  }

  lemma IfIsAWord()
    ensures WholeWord("if") && AtomOf("if") == If
  {
    RunAll("if");
    assert !IsInteger("if");
  }

  lemma LexOne(c: char, s: string)
    ensures c == '(' ==> Lex([c] + s) == [LParen] + Lex(s)
    ensures c == ')' ==> Lex([c] + s) == [RParen] + Lex(s)
    ensures c == ' ' ==> Lex([c] + s) == Lex(s)
  {
    assert ([c] + s)[1..] == s;
  }

  /** Lexing what is printed gives the printed tokens, whatever follows. */
  lemma {:induction false} LexText(t: Tree, rest: string)
    requires Each(Good(), t) && Apart(rest)
    ensures Lex(Text(t) + rest) == Printed(t) + Lex(rest)
    decreases t
  {
    hide Lex, AtomText;
    match t
    case Leaf(a) => LexAtom(a, rest);
    case List(items) =>
      var close := ")" + rest;
      var body := Join(items) + close;
      assert Text(t) + rest == "(" + body;
      LexOne('(', body);
      LexJoin(items, close);
      LexOne(')', rest);
      assert [LParen] + (PrintedAll(items) + ([RParen] + Lex(rest))) == Printed(t) + Lex(rest);
  }

  lemma {:induction false} LexJoin(items: seq<Tree>, rest: string)
    requires EachOf(Good(), items) && Apart(rest)
    ensures Lex(Join(items) + rest) == PrintedAll(items) + Lex(rest)
    decreases items
  {
    hide Lex, Text;
    if items == [] {
      Unit(rest);
      Unit(Lex(rest));
    } else {
      var first, more := items[0], items[1..];
      if |items| == 1 {
        LexText(first, rest);
        Unit(Printed(first));
      } else {
        var behind := Join(more) + rest;
        assert Join(items) + rest == Text(first) + (" " + behind);
        LexText(first, " " + behind);
        LexOne(' ', behind);
        LexJoin(more, rest);
        Regroup(Printed(first), PrintedAll(more), Lex(rest));
      }
    }
  }

  // ---------------------------------------------------------------- the rules, one by one

  /** The characters of words, by their codes: digits, letters and `@_%:=*-/+`. */
  lemma WordCharsExactly(c: char)
    ensures WordChar(c) <==> (48 <= c as int <= 57 || 65 <= c as int <= 90 || 97 <= c as int <= 122
                              || c as int in {64, 95, 37, 58, 61, 42, 45, 47, 43})
  {
  }

  /** Blanks and characters that no rule takes are passed over, a quote without a word behind it too. */
  lemma LexSkips(c: char, s: string)
    requires c != '(' && c != ')' && c != '"' && c != ';' && !WordChar(c)
    requires c == '\'' ==> s == "" || !WordChar(s[0])
    ensures Lex([c] + s) == Lex(s)
  {
    assert ([c] + s)[1..] == s;
  }

  lemma NoInteger(w: string)
    requires w != "" && w[0] != '-' && !Digit(w[0])
    ensures !IsInteger(w)
  {
    assert !Digits(w);
  }

  /** The key words, and signs: one is understood, more leave zero. */
  lemma WordsInParticular()
    ensures AtomOf("if") == If && AtomOf("do") == Do && AtomOf("while") == While && AtomOf("-") == Name("-")
    ensures AtomOf("7") == Number(7) && AtomOf("-7") == Number(-7) && AtomOf("--7") == Number(0)
    ensures AtomOf("120") == Number(120)
  {
    NoInteger("if");
    NoInteger("do");
    NoInteger("while");
    assert "-"[1..] == "" && !IsInteger("");
    var seven: string, minus: string, twice: string := "7", "-7", "--7";
    assert seven[0] == '7' && Digits(seven) && Value(seven) == 7;
    assert minus[0] == '-' && minus[1..] == seven && !Digits(minus) && IsInteger(minus);
    assert twice[0] == '-' && twice[1..] == minus && !Digits(twice) && IsInteger(twice);
    var tens: string, hundreds: string := "12", "120";
    assert tens[..1] == "1" && Digits(tens) && Value(tens) == 12;
    assert hundreds[..2] == tens && Digits(hundreds) && Value(hundreds) == 120;
  }

  /** How trees look: one space between two items, none at the ends. */
  lemma TextInParticular(x: Symbol)
    ensures Text(List([Leaf(If), Leaf(Name(x)), List([]), Leaf(Number(-12))])) == "(if " + x.name + " () -12)"
  {
    var items := [Leaf(If), Leaf(Name(x)), List([]), Leaf(Number(-12))];
    assert items[1..] == [Leaf(Name(x)), List([]), Leaf(Number(-12))];
    assert items[1..][1..] == [List([]), Leaf(Number(-12))];
    assert items[1..][1..][1..] == [Leaf(Number(-12))];
    assert Decimal(12) == "12" && Text(Leaf(Number(-12))) == "-12";
    assert Text(List([])) == "()";
    assert Join(items[1..][1..]) == "() -12";
    assert Join(items[1..]) == x.name + " () -12";
    assert Join(items) == "if " + x.name + " () -12";
  }

  // ---------------------------------------------------------------- what the lexer gives out

  predicate GoodTokens(ts: seq<Token>) {
    forall i :: 0 <= i < |ts| ==> (ts[i].Word? && ts[i].word.Name? ==> GoodName(ts[i].word.name))
  }

  lemma {:induction false} RunOfRun(s: string)
    ensures Run(s[..Run(s)]) == Run(s)
  {
    if s != "" && WordChar(s[0]) {
      RunOfRun(s[1..]);
      assert s[..Run(s)][1..] == s[1..][..Run(s[1..])];
    }
  }

  lemma WordIsWhole(s: string)
    requires WordLength(s) > 0
    ensures WholeWord(s[..WordLength(s)])
  {
    if s[0] == '\'' {
      RunOfRun(s[1..]);
      assert s[..WordLength(s)][1..] == s[1..][..Run(s[1..])];
    } else {
      RunOfRun(s);
    }
  }

  lemma {:induction false} LexedIsGood(s: string)
    ensures GoodTokens(Lex(s))
    decreases |s|
  {
    if s != "" && s[0] != '"' && s[0] != ';' {
      if s[0] != '(' && s[0] != ')' && WordLength(s) > 0 {
        WordIsWhole(s);
        LexedIsGood(s[WordLength(s)..]);
      } else {
        LexedIsGood(s[1..]);
      }
    }
  }

  /** The name, or what the table keeps of it, is a name the lexer gives out. */
  function GoodKey(): (p: Symbol -> bool) { (s: Symbol) => GoodName(s.name) || GoodName(Key(s.name)) }

  lemma WordIsGood(find: Lookup, w: Atom<string>, t: seq<Symbol>)
    requires Finds(find) && (w.Name? ==> GoodName(w.name))
    ensures var a := ReadWord(find, w, t).0; a.Name? ==> GoodKey()(a.name)
  {
    hide GoodName;
    if w.Name? && find(t, w.name).Some? { assert Hit(t, w.name, find(t, w.name).value); }
  }

  lemma {:induction false} FormIsGood(find: Lookup, ts: seq<Token>, t: seq<Symbol>)
    requires Finds(find) && GoodTokens(ts)
    ensures var r := ReadForm(find, ts, t); GoodTokens(r.rest) && (r.got.Got? ==> Each(GoodKey(), r.got.tree))
    decreases |ts|, 0
  {
    hide Finds, GoodName, ReadWord;
    if ts != [] {
      match ts[0]
      case LParen => ItemsAreGood(find, ts[1..], t);
      case RParen =>
      case Word(w) => WordIsGood(find, w, t);
    }
  }

  lemma {:induction false} ItemsAreGood(find: Lookup, ts: seq<Token>, t: seq<Symbol>)
    requires Finds(find) && GoodTokens(ts)
    ensures var r := ReadItems(find, ts, t); GoodTokens(r.rest) && EachOf(GoodKey(), r.got)
    decreases |ts|, 1
  {
    hide Finds, GoodName, ReadWord;
    var r := ReadForm(find, ts, t);
    FormIsGood(find, ts, t);
    if r.got.Got? {
      ItemsAreGood(find, r.rest, r.table);
      var more := ReadItems(find, r.rest, r.table).got;
      assert ([r.got.tree] + more)[1..] == more;
    }
  }

  /** A name of more than 31 bytes is one the lexer gives out. */
  function LongIsGood(): (p: Symbol -> bool) { (s: Symbol) => |s.name| > KEY_MAX ==> GoodName(s.name) }

  lemma {:induction false} GoodKeysAreGood(x: Tree)
    requires Each(GoodKey(), x) && Each(LongIsGood(), x)
    ensures Each(Good(), x)
    decreases x
  {
    if x.List? { GoodKeysOfAll(x.items); }
  }

  lemma {:induction false} GoodKeysOfAll(items: seq<Tree>)
    requires EachOf(GoodKey(), items) && EachOf(LongIsGood(), items)
    ensures EachOf(Good(), items)
    decreases items
  {
    if items != [] {
      GoodKeysAreGood(items[0]);
      GoodKeysOfAll(items[1..]);
    }
  }

  /** In every symbol table and for every tree of its symbols: printing the tree and reading the text
      gives the tree back exactly when its names are ones the lexer gives out, have at most 31 bytes
      and find their own symbols, and no leaf is `do` or `while`, which the printer drops. */
  lemma TextRoundTripExactly(find: Lookup, x: Tree, t: seq<Symbol>)
    requires Finds(find) && Built(t) && Each(In(t), x) && Each(LongIsGood(), x)
    ensures ReadForm(find, Lex(Text(x)), t).got == Got(x)
            <==> Each(Good(), x) && Printable(x) && Each(Known(find, t), x)
  {
    hide Finds, Built;
    if Each(Good(), x) {
      LexText(x, "");
      Unit(Text(x));
      Unit(Printed(x));
      RoundTripExactly(find, x, t);
    } else if ReadForm(find, Lex(Text(x)), t).got == Got(x) {
      LexedIsGood(Text(x));
      FormIsGood(find, Lex(Text(x)), t);
      GoodKeysAreGood(x);
    }
  }

  /** As text: a name of more than 31 bytes and then its first 31, in parentheses, is read as the long
      name twice. */
  lemma {:induction false} LongThenPrefixText(find: Lookup, l: string, t: seq<Symbol>)
    requires Finds(find) && |l| > KEY_MAX && forall i :: 0 <= i < |t| ==> Key(t[i].name) != l[..KEY_MAX]
    requires GoodName(l) && GoodName(l[..KEY_MAX])
    ensures ReadForm(find, Lex("(" + (l + (" " + (l[..KEY_MAX] + ")")))), t).got
            == Got(List([Leaf(Name(Symbol(l, |t|))), Leaf(Name(Symbol(l, |t|)))]))
  {
    var p := l[..KEY_MAX];
    hide Finds, Lex, WholeWord;
    Unit(")");
    LexOne(')', "");
    LexWord(p, ")");
    LexOne(' ', p + ")");
    LexWord(l, " " + (p + ")"));
    LexOne('(', l + (" " + (p + ")")));
    LexNothing();
    var ts := [LParen, Word(Name(l)), Word(Name(p)), RParen];
    assert Lex("(" + (l + (" " + (p + ")")))) == ts;
    LongThenPrefix(find, l, t);
  }

  lemma LexNothing()
    ensures Lex("") == []
  {
  }
}
