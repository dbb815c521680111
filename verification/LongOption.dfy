/** How src/parse-option.c resolves a long option against the option table. */
module LongOption {
  import opened Wrappers
  import S = StrList

  // enum option_type without OPTION_END: a table is a sequence here
  datatype Kind = Group | Integer | CountUp | Str | Filename

  // struct option; slot stands for the variable behind the value pointer
  datatype Opt = Opt(kind: Kind, alias: char, name: string, slot: nat, defInt: int, defStr: Option<string>,
                     optarg: bool, noarg: bool, alloneg: bool, unsigned: bool, realpath: bool, noemdash: bool)

  const NO: string := "no-"

  // What stands before the first '=', and what stands after it
  function Stem(arg: string): string {
    arg[..S.IndexOf(arg, '=')]
  }

  function Attached(arg: string): Option<string> {
    var k := S.IndexOf(arg, '=');
    if k == |arg| then None else Some(arg[k + 1..])
  }

  // How one option fits the argument: not at all; as an abbreviation; in full, with what follows '='
  datatype Hit = NoHit | Abbreviates(unset: bool, attaches: bool) | Spells(unset: bool, value: Option<string>)

  // The end of the loop body: after the full name only the end or '=' may come
  function Tail(rest: string, unset: bool): Hit {
    if rest == "" then Spells(unset, None)
    else if rest[0] == '=' then Spells(unset, Some(rest[1..]))
    else NoHit
  }

  // A negatable option whose own name is negative is looked for without its "no-", unless the argument has one
  predicate Unnegates(o: Opt, arg: string) {
    !(NO <= arg) && o.alloneg && NO <= o.name
  }

  function EffectiveName(o: Opt, arg: string): string {
    if Unnegates(o, arg) then o.name[|NO|..] else o.name
  }

  // The loop body of parse_long_option; a category is the exclusive or of the two negations
  function Classify(o: Opt, arg: string): Hit {
    if o.kind.Group? || o.noemdash then NoHit
    else
      var optUnset, name := Unnegates(o, arg), EffectiveName(o, arg);
      if name <= arg then Tail(arg[|name|..], optUnset)
      else if Stem(arg) <= name then Abbreviates(optUnset, Attached(arg).Some?)
      else if !o.alloneg then NoHit
      else if arg <= NO then Abbreviates(!optUnset, false)
      else if !(NO <= arg) then NoHit
      else if name <= arg[|NO|..] then Tail(arg[|NO| + |name|..], !optUnset)
      else if arg[|NO|..] <= name then Abbreviates(!optUnset, false)
      else NoHit
  }

  datatype Resolution = Found(opt: Opt, unset: bool, value: Option<string>) | Ambiguous | Unknown

  function SpelledBy(arg: string): Opt -> bool {
    (o: Opt) => Classify(o, arg).Spells?
  }

  function AbbreviatedBy(arg: string): Opt -> bool {
    (o: Opt) => Classify(o, arg).Abbreviates?
  }

  predicate SomeAttaches(table: seq<Opt>, arg: string) {
    exists i :: 0 <= i < |table| && Classify(table[i], arg).Abbreviates? && Classify(table[i], arg).attaches
  }

  // The value that the abbreviations seen so far have left in the parser
  function LeftBy(table: seq<Opt>, arg: string): Option<string> {
    if SomeAttaches(table, arg) then Attached(arg) else None
  }

  // The place of the first full spelling, or |table|
  function FirstSpelling(table: seq<Opt>, arg: string): (k: nat)
    ensures k <= |table|
    ensures forall i :: 0 <= i < k ==> !Classify(table[i], arg).Spells?
    ensures k < |table| ==> Classify(table[k], arg).Spells?
  {
    if table == [] || Classify(table[0], arg).Spells? then 0
    else
      var k := FirstSpelling(table[1..], arg);
      assert forall i :: 0 < i <= k ==> table[i] == table[1..][i - 1];
      1 + k
  }

  function Or(a: Option<string>, b: Option<string>): Option<string> {
    if a.Some? then a else b
  }

  // What parse_long_option decides: the first full spelling wins, then a unique abbreviation
  function Resolve(table: seq<Opt>, arg: string): Resolution {
    var k := FirstSpelling(table, arg);
    var abbrevs := S.Kept(table, AbbreviatedBy(arg));
    if k < |table| then
      var hit := Classify(table[k], arg);
      Found(table[k], hit.unset, Or(hit.value, LeftBy(table[..k], arg)))
    else if |abbrevs| >= 2 then Ambiguous
    else if |abbrevs| == 1 && Classify(abbrevs[0], arg).Abbreviates? then
      Found(abbrevs[0], Classify(abbrevs[0], arg).unset, LeftBy(table, arg))
    else Unknown
  }

  lemma {:induction false} KeptMembers<T>(a: seq<T>, pass: T -> bool)
    ensures forall x :: x in S.Kept(a, pass) ==> x in a && pass(x)
    ensures forall x :: x in a && pass(x) ==> x in S.Kept(a, pass)
  {
    hide S.Kept;
    if a == [] {
      EmptyKept(pass);
    } else {
      var b, x := a[..|a| - 1], a[|a| - 1];
      KeptMembers(b, pass);
      assert a == b + [x];
      S.Snoc(b, x, pass);
    }
  }

  lemma EmptyKept<T>(pass: T -> bool)
    ensures S.Kept<T>([], pass) == []
  {
  }

  ghost predicate TwoPass<T>(a: seq<T>, pass: T -> bool) {
    exists i, j :: 0 <= i < j < |a| && pass(a[i]) && pass(a[j])
  }

  lemma {:induction false} KeptTwo<T>(a: seq<T>, pass: T -> bool)
    ensures |S.Kept(a, pass)| >= 2 <==> TwoPass(a, pass)
  {
    hide S.Kept;
    if a == [] {
      EmptyKept(pass);
    } else {
      var n := |a| - 1;
      var b, x := a[..n], a[n];
      KeptTwo(b, pass);
      KeptMembers(b, pass);
      assert a == b + [x];
      S.Snoc(b, x, pass);
      if TwoPass(b, pass) {
        var i, j :| 0 <= i < j < |b| && pass(b[i]) && pass(b[j]);
        assert a[i] == b[i] && a[j] == b[j];
      } else if |S.Kept(b, pass)| == 1 {
        var y := S.Kept(b, pass)[0];
        assert y in S.Kept(b, pass);
        assert y in b && pass(y);
        var i :| 0 <= i < |b| && b[i] == y;
        assert a[i] == y;
      } else {
        forall i | 0 <= i < n
          ensures !pass(a[i])
        {
          assert b[i] in b;
        }
      }
    }
  }

  ghost predicate SomeSpells(table: seq<Opt>, arg: string) {
    exists i :: 0 <= i < |table| && Classify(table[i], arg).Spells?
  }

  // o stands in the table and is its first full spelling
  ghost predicate IsFirstSpelling(table: seq<Opt>, arg: string, k: nat) {
    k < |table| && Classify(table[k], arg).Spells? && forall i :: 0 <= i < k ==> !Classify(table[i], arg).Spells?
  }

  // o is the only option of the table that the argument fits at all, and it abbreviates it
  ghost predicate IsOnlyAbbreviation(table: seq<Opt>, arg: string, k: nat) {
    k < |table| && Classify(table[k], arg).Abbreviates? &&
    forall i :: 0 <= i < |table| && i != k ==> Classify(table[i], arg).NoHit?
  }

  // Exactly when an argument is ambiguous, unknown or found, and which option it then means
  lemma ResolutionMeans(table: seq<Opt>, arg: string)
    ensures Resolve(table, arg).Ambiguous? <==> !SomeSpells(table, arg) && TwoPass(table, AbbreviatedBy(arg))
    ensures Resolve(table, arg).Unknown? <==> forall i :: 0 <= i < |table| ==> Classify(table[i], arg).NoHit?
    ensures Resolve(table, arg).Found? ==> exists k: nat ::
      (if SomeSpells(table, arg) then IsFirstSpelling(table, arg, k) else IsOnlyAbbreviation(table, arg, k))
      && Resolve(table, arg).opt == table[k] && Resolve(table, arg).unset == UnsetOf(Classify(table[k], arg))
  {
    hide Classify, S.Kept, SomeAttaches;
    var pass := AbbreviatedBy(arg);
    KeptMembers(table, pass);
    KeptTwo(table, pass);
    var k := FirstSpelling(table, arg);
    if k < |table| {
      assert IsFirstSpelling(table, arg, k);
    } else {
      var abbrevs := S.Kept(table, pass);
      assert !SomeSpells(table, arg);
      if |abbrevs| == 1 {
        assert abbrevs[0] in abbrevs;
        var i :| 0 <= i < |table| && table[i] == abbrevs[0];
        OnlyOnePasses(table, pass, i);
        assert IsOnlyAbbreviation(table, arg, i);
      } else if |abbrevs| == 0 {
        assert forall i :: 0 <= i < |table| && pass(table[i]) ==> table[i] in abbrevs;
      }
    }
  }

  lemma OnlyOnePasses<T>(a: seq<T>, pass: T -> bool, i: nat)
    requires i < |a| && pass(a[i]) && !TwoPass(a, pass)
    ensures forall j :: 0 <= j < |a| && j != i ==> !pass(a[j])
  {
  }

  function UnsetOf(h: Hit): bool {
    !h.NoHit? && h.unset
  }

  /* ---------- which spellings an option answers to ---------- */

  predicate NoEquals(s: string) {
    '=' !in s
  }

  // The negated form of an option is out of reach when its name begins that form: "n" begins "no-n"
  predicate NegationReachable(name: string) {
    name != "" && !(name <= NO + name)
  }

  // arg is name, alone or followed by '='
  predicate IsNamed(arg: string, name: string) {
    name <= arg && (|arg| == |name| || arg[|name|] == '=')
  }

  lemma StemOfNamed(arg: string, name: string)
    requires NoEquals(name)
    ensures IsNamed(arg, name) <==> Stem(arg) == name
    ensures name <= arg <==> name <= Stem(arg)
    ensures IsNamed(arg, name) ==> Attached(arg) == if |arg| == |name| then None else Some(arg[|name| + 1..])
  {
    var k := S.IndexOf(arg, '=');
    S.InPrefix(arg, k);
    if name <= arg {
      assert arg[..|name|] == name;
      S.InPrefix(arg, |name|);
      if IsNamed(arg, name) {
        S.IndexOfUnique(arg, '=', |name|);
      }
    }
  }

  lemma StemAfterNo(arg: string)
    requires NO <= arg
    ensures Stem(arg) == NO + Stem(arg[|NO|..]) && Attached(arg) == Attached(arg[|NO|..])
  {
    var rest := arg[|NO|..];
    var k := S.IndexOf(rest, '=');
    assert arg == NO + rest;
    assert arg[..|NO| + k] == NO + rest[..k];
    S.IndexOfUnique(arg, '=', |NO| + k);
  }

  lemma TailOf(arg: string, name: string, unset: bool)
    requires NoEquals(name) && name <= arg
    ensures Tail(arg[|name|..], unset) == if Stem(arg) == name then Spells(unset, Attached(arg)) else NoHit
  {
    StemOfNamed(arg, name);
  }

  // Headings and options without dashes are no long options
  lemma NeverFits(o: Opt, arg: string)
    requires o.kind.Group? || o.noemdash
    ensures Classify(o, arg) == NoHit
  {
  }

  // Exactly the full spellings of an option, and what each means. A name with "no-" is spelled without it when
  // the argument does not begin with "no-" itself.
  lemma SpellsExactly(o: Opt, arg: string)
    requires NoEquals(o.name) && !o.kind.Group? && !o.noemdash
    ensures Classify(o, arg).Spells? <==>
      AsNamed(o, Stem(arg)) || Negated(o, Stem(arg)) || UnNegated(o, Stem(arg))
    ensures Classify(o, arg).Spells? ==>
      Classify(o, arg) == Spells(!AsNamed(o, Stem(arg)), Attached(arg))
  {
    hide Stem, Attached, Tail;
    var stem := Stem(arg);
    var optUnset, name := Unnegates(o, arg), EffectiveName(o, arg);
    assert NoEquals(name);
    StemOfNamed(arg, name);
    StemOfNamed(arg, NO);
    StemOfNamed(arg, o.name);
    assert optUnset ==> o.name == NO + name;
    if name <= arg {
      TailOf(arg, name, optUnset);
      NamedOrNot(o, stem, name);
    } else if NO <= arg {
      StemAfterNo(arg);
      StemOfNamed(arg[|NO|..], name);
      if name <= arg[|NO|..] {
        TailOf(arg[|NO|..], name, true);
        assert arg[|NO| + |name|..] == arg[|NO|..][|name|..];
      }
      NamedOrNot(o, stem, name);
      assert Negated(o, stem) <==> o.alloneg && Stem(arg[|NO|..]) == name by {
        assert stem == NO + Stem(arg[|NO|..]);
        assert stem == NO + name ==> stem[|NO|..] == name;
      }
      if Negated(o, stem) {
        assert |stem| > |name| && |arg| > |NO|;
      }
    } else {
      NamedOrNot(o, stem, name);
    }
  }

  lemma NamedOrNot(o: Opt, stem: string, name: string)
    requires name == if !(NO <= stem) && o.alloneg && NO <= o.name then o.name[|NO|..] else o.name
    ensures AsNamed(o, stem) || UnNegated(o, stem) <==> stem == name
    ensures stem == name ==> (AsNamed(o, stem) <==> name == o.name)
    ensures Negated(o, stem) ==> NO <= stem && name == o.name && !(name <= stem)
  {
    assert o.name == NO + stem ==> o.name[|NO|..] == stem;
    assert NO <= o.name ==> o.name == NO + o.name[|NO|..];
  }

  predicate AsNamed(o: Opt, stem: string) {
    stem == o.name && !(o.alloneg && NO <= o.name && !(NO <= stem))
  }

  predicate Negated(o: Opt, stem: string) {
    o.alloneg && stem == NO + o.name && NegationReachable(o.name)
  }

  predicate UnNegated(o: Opt, stem: string) {
    o.alloneg && o.name == NO + stem && !(NO <= stem)
  }

  // Up to its '=' the argument is a proper prefix of the name
  predicate PlainlyAbbreviates(o: Opt, arg: string) {
    Stem(arg) <= EffectiveName(o, arg) && Stem(arg) != EffectiveName(o, arg)
  }

  // The whole argument is a proper prefix of the negated name, and neither it nor the name begins the other
  predicate AbbreviatesNegation(o: Opt, arg: string) {
    var name := EffectiveName(o, arg);
    o.alloneg && arg <= NO + name && arg != NO + name && !(arg <= name) && !(name <= arg)
  }

  // Exactly the abbreviations of an option, and what each means: only a plain one may have a value attached
  lemma AbbreviatesExactly(o: Opt, arg: string)
    requires NoEquals(o.name) && !o.kind.Group? && !o.noemdash
    ensures Classify(o, arg).Abbreviates? <==> PlainlyAbbreviates(o, arg) || AbbreviatesNegation(o, arg)
    ensures PlainlyAbbreviates(o, arg) ==> Classify(o, arg) == Abbreviates(Unnegates(o, arg), Attached(arg).Some?)
    ensures AbbreviatesNegation(o, arg) ==> Classify(o, arg) == Abbreviates(!Unnegates(o, arg), false)
  {
    hide Stem, Attached, Tail;
    var name := EffectiveName(o, arg);
    assert NoEquals(name);
    StemOfNamed(arg, name);
    PrefixOfNegation(arg, name);
    if name <= arg {
      TailOf(arg, name, Unnegates(o, arg));
    } else if Stem(arg) <= name {
      WholeStem(arg);
    } else {
      WholeStem(arg);
      if o.alloneg && NO <= arg && name <= arg[|NO|..] {
        TailOf(arg[|NO|..], name, !Unnegates(o, arg));
        assert arg[|NO| + |name|..] == arg[|NO|..][|name|..];
      }
    }
  }

  // A prefix of the negated name lies in the "no-" or goes beyond it
  lemma PrefixOfNegation(arg: string, name: string)
    ensures arg <= NO + name <==> arg <= NO || (NO <= arg && arg[|NO|..] <= name)
    ensures NO <= arg ==> (arg == NO + name <==> arg[|NO|..] == name)
    ensures NO <= arg && arg[|NO|..] <= name && name <= arg[|NO|..] ==> arg[|NO|..] == name
  {
    if NO <= arg {
      assert arg == NO + arg[|NO|..];
      if arg[|NO|..] <= name {
        assert name == arg[|NO|..] + name[|arg| - |NO|..];
        assert NO + name == arg + name[|arg| - |NO|..];
      }
      if arg <= NO + name {
        assert arg[|NO|..] == (NO + name)[..|arg|][|NO|..] == name[..|arg| - |NO|];
      }
    } else if arg <= NO + name {
      assert arg == (NO + name)[..|arg|];
      assert |arg| < |NO| ==> (NO + name)[..|arg|] == NO[..|arg|];
    }
  }

  // Without '=' the stem is the whole argument; with one it is no prefix of a name
  lemma WholeStem(arg: string)
    ensures NoEquals(arg) <==> Attached(arg).None?
    ensures NoEquals(arg) ==> Stem(arg) == arg
    ensures forall s :: arg <= s && NoEquals(s) ==> NoEquals(arg)
  {
    var k := S.IndexOf(arg, '=');
    if k == |arg| {
      assert arg[..|arg|] == arg;
    }
  }

  // A negatable option named "n" cannot be negated: "no-n" begins with its name and is rejected there
  lemma NegationOutOfReach(o: Opt)
    requires o.name == "n" && o.alloneg
    ensures Classify(o, "no-n").NoHit?
  {
  }

  /* ---------- the order of the table does not matter ---------- */

  function Spellings(o: Opt): set<string> {
    if o.kind.Group? || o.noemdash then {}
    else if !o.alloneg then {o.name}
    else {o.name, NO + o.name} + if NO <= o.name then {o.name[|NO|..]} else {}
  }

  ghost predicate DistinctSpellings(table: seq<Opt>) {
    && (forall i, j :: 0 <= i < j < |table| ==> Spellings(table[i]) !! Spellings(table[j]))
    && (forall i :: 0 <= i < |table| ==> NoEquals(table[i].name))
  }

  lemma SpellsBySpelling(o: Opt, arg: string)
    requires NoEquals(o.name) && Classify(o, arg).Spells?
    ensures Stem(arg) in Spellings(o) && Classify(o, arg).value == Attached(arg)
  {
    SpellsExactly(o, arg);
  }

  lemma OneTakenOut<T>(a: seq<T>, b1: seq<T>, x: T, b2: seq<T>)
    requires multiset(a + [x]) == multiset(b1 + [x] + b2)
    ensures multiset(a) == multiset(b1 + b2)
  {
    assert multiset(a + [x]) == multiset(a) + multiset{x};
    assert multiset(b1 + [x] + b2) == multiset(b1 + b2) + multiset{x};
    assert multiset(a) == multiset(a + [x]) - multiset{x};
    assert multiset(b1 + b2) == multiset(b1 + [x] + b2) - multiset{x};
  }

  lemma {:induction false} KeptLength<T>(a: seq<T>, b: seq<T>, pass: T -> bool)
    requires multiset(a) == multiset(b)
    ensures |S.Kept(a, pass)| == |S.Kept(b, pass)|
  {
    hide S.Kept;
    if a == [] {
      assert |multiset(a)| == |a| && |multiset(b)| == |b|;
    } else {
      var n := |a| - 1;
      var x := a[n];
      assert x in multiset(b);
      var i :| 0 <= i < |b| && b[i] == x;
      var b1, b2 := b[..i], b[i + 1..];
      assert a == a[..n] + [x] && b == b1 + [x] + b2;
      OneTakenOut(a[..n], b1, x, b2);
      KeptLength(a[..n], b1 + b2, pass);
      S.Snoc(a[..n], x, pass);
      S.Snoc(b1, x, pass);
      S.KeptConcat(b1 + [x], b2, pass);
      S.KeptConcat(b1, b2, pass);
    }
  }

  lemma KeptOfPermutation<T>(a: seq<T>, b: seq<T>, pass: T -> bool)
    requires multiset(a) == multiset(b)
    ensures |S.Kept(a, pass)| == |S.Kept(b, pass)|
    ensures |S.Kept(a, pass)| == 1 ==> S.Kept(a, pass) == S.Kept(b, pass)
  {
    hide S.Kept;
    KeptLength(a, b, pass);
    SameMembers(a, b);
    KeptMembers(a, pass);
    KeptMembers(b, pass);
    var k := S.Kept(a, pass);
    if |k| == 1 {
      assert k[0] in k;
      assert k[0] in S.Kept(b, pass);
    }
  }

  // The attached value is the same whichever option left it
  lemma ValueIsAttached(table: seq<Opt>, arg: string)
    requires forall i :: 0 <= i < |table| ==> NoEquals(table[i].name)
    ensures var k := FirstSpelling(table, arg);
      k < |table| ==> Resolve(table, arg) == Found(table[k], UnsetOf(Classify(table[k], arg)), Attached(arg))
  {
    hide Classify, S.Kept, SomeAttaches;
    var k := FirstSpelling(table, arg);
    if k < |table| {
      SpellsBySpelling(table[k], arg);
    }
  }

  lemma SpelledAtMostOnce(table: seq<Opt>, arg: string)
    requires DistinctSpellings(table)
    ensures !TwoPass(table, SpelledBy(arg))
  {
    hide Classify, Spellings;
    if TwoPass(table, SpelledBy(arg)) {
      var i, j :| 0 <= i < j < |table| && SpelledBy(arg)(table[i]) && SpelledBy(arg)(table[j]);
      SpellsBySpelling(table[i], arg);
      SpellsBySpelling(table[j], arg);
      assert false;
    }
  }

  lemma FirstSpellingIsKept(table: seq<Opt>, arg: string)
    ensures var kept := S.Kept(table, SpelledBy(arg));
      && (FirstSpelling(table, arg) < |table| <==> kept != [])
      && (FirstSpelling(table, arg) < |table| ==> table[FirstSpelling(table, arg)] in kept)
  {
    hide Classify, S.Kept;
    KeptMembers(table, SpelledBy(arg));
    var kept := S.Kept(table, SpelledBy(arg));
    if kept != [] {
      assert kept[0] in kept;
      var i :| 0 <= i < |table| && table[i] == kept[0];
      assert SpelledBy(arg)(table[i]);
    }
    var k := FirstSpelling(table, arg);
    assert k < |table| ==> table[k] in table && SpelledBy(arg)(table[k]);
  }

  // With distinct spellings free of '=', every order of the table resolves every argument alike
  lemma OrderDoesNotMatter(table: seq<Opt>, table': seq<Opt>, arg: string)
    requires DistinctSpellings(table) && multiset(table) == multiset(table')
    ensures Resolve(table, arg) == Resolve(table', arg)
  {
    hide Classify, S.Kept, Spellings;
    SameMembers(table, table');
    KeptOfPermutation(table, table', SpelledBy(arg));
    SpelledAtMostOnce(table, arg);
    KeptTwo(table, SpelledBy(arg));
    FirstSpellingIsKept(table, arg);
    FirstSpellingIsKept(table', arg);
    if S.Kept(table, SpelledBy(arg)) != [] {
      ValueIsAttached(table, arg);
      ValueIsAttached(table', arg);
    } else {
      KeptOfPermutation(table, table', AbbreviatedBy(arg));
      AttachesAlike(table, table', arg);
    }
  }

  lemma SameMembers<T>(a: seq<T>, b: seq<T>)
    requires multiset(a) == multiset(b)
    ensures forall x :: x in a <==> x in b
    ensures forall i :: 0 <= i < |b| ==> b[i] in a
  {
    forall x
      ensures x in a <==> x in b
    {
      assert x in a <==> x in multiset(a);
      assert x in b <==> x in multiset(b);
    }
  }

  lemma AttachesAlike(table: seq<Opt>, table': seq<Opt>, arg: string)
    requires forall x :: x in table <==> x in table'
    ensures LeftBy(table, arg) == LeftBy(table', arg)
  {
    hide Classify;
    if SomeAttaches(table, arg) {
      var i :| 0 <= i < |table| && Classify(table[i], arg).Abbreviates? && Classify(table[i], arg).attaches;
      assert table[i] in table';
    }
    if SomeAttaches(table', arg) {
      var i :| 0 <= i < |table'| && Classify(table'[i], arg).Abbreviates? && Classify(table'[i], arg).attaches;
      assert table'[i] in table;
    }
  }
}
