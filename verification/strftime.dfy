/** The conversion of a strftime-style format into the text of a regular
    expression (`TimestampFinder::strftime_to_regex`), and what it
    guarantees.

    The conversion itself is thirteen literal, case-sensitive `replace`
    calls applied one after the other. Next to it stands a reference
    definition: a single left-to-right pass over the format that, at each
    position, looks the specifier up in a table and emits its fragment, or
    copies the character. The main theorem, StrftimeIsOnePass, says that
    the replace chain and the one-pass translation agree on every format, so
    one replacement can never clobber or re-create the token of another. */
module StrftimeRegex {
  import opened Text

  /** One row of the specifier table: a token and its regex fragment. */
  datatype Specifier = Specifier(token: string, fragment: string)

  /** The thirteen specifiers, in the order the replace chain applies them.
      These are the program's fragments, character for character, including
      the unclosed brace of `%y` and the list-shaped count of `%B`. */
  const Specifiers: seq<Specifier> := [
    Specifier("%Y", @"\d{1,4}"),
    Specifier("%C", @"\d{1,2}"),
    Specifier("%y", @"\d{1,2"),
    Specifier("%m", @"\d{1,2}"),
    Specifier("%b", @"[A-Za-z]{3}"),
    Specifier("%B", @"[A-Za-z]{3,4,5,6,7,8,9}"),
    Specifier("%h", @"[A-Za-z]{3}"),
    Specifier("%d", @"\d{1,2}"),
    Specifier("%H", @"\d{1,2}"),
    Specifier("%M", @"\d{1,2}"),
    Specifier("%S", @"\d{1,2}"),
    Specifier("%.f", @"\d{1,}"),
    Specifier("%s", @"\d{1,10}")
  ]

  /** `strftime_to_regex`: the replace chain, in the order of the source.
      Every replaced pattern begins with `%`, so a format without `%` comes
      back unchanged. */
  function StrftimeToRegex(timeFormat: string): (r: string)
    ensures '%' !in timeFormat ==> r == timeFormat
  {
    var s1 := Replace(timeFormat, "%Y", @"\d{1,4}");
    var s2 := Replace(s1, "%C", @"\d{1,2}");
    var s3 := Replace(s2, "%y", @"\d{1,2");
    var s4 := Replace(s3, "%m", @"\d{1,2}");
    var s5 := Replace(s4, "%b", @"[A-Za-z]{3}");
    var s6 := Replace(s5, "%B", @"[A-Za-z]{3,4,5,6,7,8,9}");
    var s7 := Replace(s6, "%h", @"[A-Za-z]{3}");
    var s8 := Replace(s7, "%d", @"\d{1,2}");
    var s9 := Replace(s8, "%H", @"\d{1,2}");
    var s10 := Replace(s9, "%M", @"\d{1,2}");
    var s11 := Replace(s10, "%S", @"\d{1,2}");
    var s12 := Replace(s11, "%.f", @"\d{1,}");
    Replace(s12, "%s", @"\d{1,10}")
  }

  // ---------------------------------------------------------------------
  // The shape of the table

  /** A character that can neither start a token nor head a fragment. */
  predicate PlainChar(c: char) {
    c != '%' && c != '\\' && c != '['
  }

  predicate Plain(q: string) {
    forall k :: 0 <= k < |q| ==> PlainChar(q[k])
  }

  /** A token is `%` followed by at least one plain character. */
  predicate TokenShape(t: string) {
    |t| >= 2 && t[0] == '%' && forall k :: 1 <= k < |t| ==> PlainChar(t[k])
  }

  /** A fragment is non-empty, starts with `\` or `[`, and has no `%`. */
  predicate FragmentShape(f: string) {
    |f| >= 1 && (f[0] == '\\' || f[0] == '[') && forall k :: 0 <= k < |f| ==> f[k] != '%'
  }

  predicate WellFormed(table: seq<Specifier>) {
    forall i :: 0 <= i < |table| ==>
      TokenShape(table[i].token) && FragmentShape(table[i].fragment)
  }

  /** No two tokens share their second character, so at most one token can
      begin at any position of a format. */
  predicate Unambiguous(table: seq<Specifier>)
    requires WellFormed(table)
  {
    forall i, j :: 0 <= i < j < |table| ==> table[i].token[1] != table[j].token[1]
  }

  /** The second character of each token, in table order. */
  const SecondChars: string := "YCymbBhdHMS.s"

  lemma SpecifierTokens()
    ensures |Specifiers| == 13
    ensures forall i :: 0 <= i < 13 ==> TokenShape(Specifiers[i].token)
    ensures forall i :: 0 <= i < 13 ==> Specifiers[i].token[1] == SecondChars[i]
  {
    forall i | 0 <= i < 13
      ensures TokenShape(Specifiers[i].token) && Specifiers[i].token[1] == SecondChars[i]
    {
      if i == 0 {} else if i == 1 {} else if i == 2 {} else if i == 3 {}
      else if i == 4 {} else if i == 5 {} else if i == 6 {} else if i == 7 {}
      else if i == 8 {} else if i == 9 {} else if i == 10 {} else if i == 11 {}
    }
  }

  /** Each distinct fragment of the table has the fragment shape. */
  lemma DigitFragmentShapes()
    ensures FragmentShape(@"\d{1,4}") && FragmentShape(@"\d{1,2}") && FragmentShape(@"\d{1,2")
    ensures FragmentShape(@"\d{1,}") && FragmentShape(@"\d{1,10}")
  {
  }

  lemma LetterFragmentShapes()
    ensures FragmentShape(@"[A-Za-z]{3}")
    ensures FragmentShape(@"[A-Za-z]{3,4,5,6,7,8,9}")
  {
  }

  lemma SpecifierFragments()
    ensures forall i :: 0 <= i < 13 ==> FragmentShape(Specifiers[i].fragment)
  {
    SpecifierRowsLow();
    SpecifierRowsHigh();
    DigitFragmentShapes();
    LetterFragmentShapes();
  }

  lemma SpecifiersShape()
    ensures |Specifiers| == 13
    ensures WellFormed(Specifiers) && Unambiguous(Specifiers)
  {
    SpecifierTokens();
    SpecifierFragments();
    assert forall i, j :: 0 <= i < j < 13 ==> SecondChars[i] != SecondChars[j];
  }

  /** The rows of the table, one by one. */
  lemma SpecifierRowsLow()
    ensures |Specifiers| == 13
    ensures Specifiers[0] == Specifier("%Y", @"\d{1,4}")
    ensures Specifiers[1] == Specifier("%C", @"\d{1,2}")
    ensures Specifiers[2] == Specifier("%y", @"\d{1,2")
    ensures Specifiers[3] == Specifier("%m", @"\d{1,2}")
    ensures Specifiers[4] == Specifier("%b", @"[A-Za-z]{3}")
    ensures Specifiers[5] == Specifier("%B", @"[A-Za-z]{3,4,5,6,7,8,9}")
    ensures Specifiers[6] == Specifier("%h", @"[A-Za-z]{3}")
  {
  }

  lemma SpecifierRowsHigh()
    ensures Specifiers[7] == Specifier("%d", @"\d{1,2}")
    ensures Specifiers[8] == Specifier("%H", @"\d{1,2}")
    ensures Specifiers[9] == Specifier("%M", @"\d{1,2}")
    ensures Specifiers[10] == Specifier("%S", @"\d{1,2}")
    ensures Specifiers[11] == Specifier("%.f", @"\d{1,}")
    ensures Specifiers[12] == Specifier("%s", @"\d{1,10}")
  {
  }

  // ---------------------------------------------------------------------
  // The one-pass reference translation

  /** The index of the first table entry whose token starts `s`, or
      `|table|` when there is none. */
  function FirstMatch(s: string, table: seq<Specifier>): (k: nat)
    ensures k <= |table|
    ensures k < |table| ==> table[k].token <= s
  {
    if table == [] then 0
    else if table[0].token <= s then 0
    else 1 + FirstMatch(s, table[1..])
  }

  /** No entry before the one FirstMatch picks starts `s`. */
  lemma {:induction false} FirstMatchMinimal(s: string, table: seq<Specifier>)
    ensures forall j :: 0 <= j < FirstMatch(s, table) ==> !(table[j].token <= s)
    decreases |table|
  {
    if table != [] && !(table[0].token <= s) {
      FirstMatchMinimal(s, table[1..]);
      assert forall j :: 1 <= j < |table| ==> table[j] == table[1..][j - 1];
    }
  }

  /** Translate `s` in one left-to-right pass: a token found in the table is
      replaced by its fragment, any other character is copied. */
  function Translate(s: string, table: seq<Specifier>): string
    decreases |s|
  {
    if s == [] then []
    else
      var k := FirstMatch(s, table);
      if k < |table| && table[k].token != [] then
        table[k].fragment + Translate(s[|table[k].token|..], table)
      else
        [s[0]] + Translate(s[1..], table)
  }

  /** One step of the translation, for a well-formed table. */
  lemma TranslateUnfold(s: string, table: seq<Specifier>)
    requires WellFormed(table) && s != []
    ensures FirstMatch(s, table) < |table| ==>
      var e := table[FirstMatch(s, table)];
      && s[0] == '%'
      && Translate(s, table) == e.fragment + Translate(s[|e.token|..], table)
      && (Translate(s, table)[0] == '\\' || Translate(s, table)[0] == '[')
    ensures FirstMatch(s, table) == |table| ==>
      Translate(s, table) == [s[0]] + Translate(s[1..], table)
  {
  }

  /** With an empty table nothing is translated. */
  lemma {:induction false} TranslateEmptyTable(s: string)
    ensures Translate(s, []) == s
    decreases |s|
  {
    if s != [] {
      TranslateEmptyTable(s[1..]);
      assert [s[0]] + s[1..] == s;
    }
  }

  /** Text without `%` starts no token and is copied unchanged. */
  lemma {:induction false} TranslatePassThrough(a: string, b: string, table: seq<Specifier>)
    requires WellFormed(table) && '%' !in a
    ensures Translate(a + b, table) == a + Translate(b, table)
    decreases |a|
  {
    if a == [] {
      assert a + b == b;
    } else {
      var s := a + b;
      assert s[0] == a[0];
      TranslateUnfold(s, table);
      DropConcat(a, b, 1);
      TranslatePassThrough(a[1..], b, table);
      calc {
        Translate(s, table);
        [a[0]] + Translate(a[1..] + b, table);
        [a[0]] + (a[1..] + Translate(b, table));
        { assert [a[0]] + a[1..] == a; }
        a + Translate(b, table);
      }
    }
  }

  /** A token of an unambiguous table, followed by anything, translates to
      its own fragment followed by the translation of the rest. */
  lemma TranslateToken(table: seq<Specifier>, i: nat, rest: string)
    requires WellFormed(table) && Unambiguous(table) && i < |table|
    ensures Translate(table[i].token + rest, table) == table[i].fragment + Translate(rest, table)
  {
    var t := table[i].token;
    var s := t + rest;
    assert t <= s;
    var k := FirstMatch(s, table);
    FirstMatchMinimal(s, table);
    assert s[1] == t[1];
    assert k == i;
    assert s[|t|..] == rest;
  }

  /** If the translation of `s` starts with plain text `q`, then so does `s`
      itself: plain text in the output can only have been copied. */
  lemma {:induction false} TranslateStartsWith(s: string, table: seq<Specifier>, q: string)
    requires WellFormed(table) && Plain(q) && q <= Translate(s, table)
    ensures q <= s
    decreases |s|
  {
    if q != [] && s != [] {
      TranslateUnfold(s, table);
      assert PlainChar(q[0]) && q[0] == Translate(s, table)[0];
      var x := Translate(s[1..], table);
      assert q[1..] <= x;
      TranslateStartsWith(s[1..], table, q[1..]);
      assert q == [q[0]] + q[1..];
      assert s == [s[0]] + s[1..];
    }
  }

  /** A token at the head of the translation of `s`, when no table entry
      starts `s`, was already at the head of `s`. */
  lemma TokenAtHead(s: string, table: seq<Specifier>, t: string)
    requires WellFormed(table) && TokenShape(t) && s != []
    requires FirstMatch(s, table) == |table| && t <= Translate(s, table)
    ensures t <= s
  {
    TranslateUnfold(s, table);
    var x := Translate(s[1..], table);
    assert t[1..] <= x;
    TranslateStartsWith(s[1..], table, t[1..]);
    assert t == [t[0]] + t[1..];
    assert s == [s[0]] + s[1..];
  }

  /** How the entry picked at the head of `s` changes when the table gets
      one more entry at its end. */
  lemma FirstMatchExtended(s: string, table: seq<Specifier>, e: Specifier)
    ensures FirstMatch(s, table) < |table| ==> FirstMatch(s, table + [e]) == FirstMatch(s, table)
    ensures FirstMatch(s, table) == |table| && e.token <= s ==> FirstMatch(s, table + [e]) == |table|
    ensures FirstMatch(s, table) == |table| && !(e.token <= s) ==> FirstMatch(s, table + [e]) == |table| + 1
  {
    var ext := table + [e];
    var k, k' := FirstMatch(s, table), FirstMatch(s, ext);
    FirstMatchMinimal(s, table);
    FirstMatchMinimal(s, ext);
    assert ext[|table|] == e;
    if k' < |table| {
      assert ext[k'] == table[k'];
    }
    if k < |table| {
      assert ext[k] == table[k];
    }
  }

  /** ReplaceTranslate when an entry of the smaller table starts `s`: both
      tables emit its fragment, and the replace passes over the fragment. */
  lemma ReplaceTranslateOld(s: string, table: seq<Specifier>, e: Specifier)
    requires WellFormed(table) && TokenShape(e.token) && FragmentShape(e.fragment)
    requires s != [] && FirstMatch(s, table) < |table|
    requires var rest := s[|table[FirstMatch(s, table)].token|..];
      Replace(Translate(rest, table), e.token, e.fragment) == Translate(rest, table + [e])
    ensures Replace(Translate(s, table), e.token, e.fragment) == Translate(s, table + [e])
  {
    var k := FirstMatch(s, table);
    var t, f := table[k].token, table[k].fragment;
    FirstMatchExtended(s, table, e);
    TranslateUnfold(s, table);
    assert (table + [e])[k] == table[k];
    var rest := s[|t|..];
    assert '%' !in f;
    ReplacePassThrough(f, Translate(rest, table), e.token, e.fragment);
  }

  /** A token that starts `s` but is not in the table is copied whole. */
  lemma TranslateCopiesToken(s: string, table: seq<Specifier>, p: string)
    requires WellFormed(table) && TokenShape(p) && p <= s && FirstMatch(s, table) == |table|
    ensures Translate(s, table) == p + Translate(s[|p|..], table)
  {
    TranslateUnfold(s, table);
    var rest := s[|p|..];
    DropConcat(p, rest, 1);
    assert s == p + rest;
    assert '%' !in p[1..];
    TranslatePassThrough(p[1..], rest, table);
    calc {
      Translate(s, table);
      [s[0]] + Translate(p[1..] + rest, table);
      [s[0]] + (p[1..] + Translate(rest, table));
      ([s[0]] + p[1..]) + Translate(rest, table);
      { assert [s[0]] + p[1..] == p; }
      p + Translate(rest, table);
    }
  }

  /** ReplaceTranslate when the new token starts `s`: the smaller table
      copies the token, and the replace turns it into its fragment. */
  lemma ReplaceTranslateNew(s: string, table: seq<Specifier>, e: Specifier)
    requires WellFormed(table) && TokenShape(e.token) && FragmentShape(e.fragment)
    requires FirstMatch(s, table) == |table| && e.token <= s
    requires var rest := s[|e.token|..];
      Replace(Translate(rest, table), e.token, e.fragment) == Translate(rest, table + [e])
    ensures Replace(Translate(s, table), e.token, e.fragment) == Translate(s, table + [e])
  {
    var p := e.token;
    FirstMatchExtended(s, table, e);
    assert (table + [e])[|table|] == e;
    var rest := s[|p|..];
    TranslateCopiesToken(s, table, p);
    ReplaceAtStart(Translate(rest, table), p, e.fragment);
  }

  /** ReplaceTranslate when no token starts `s`: both copy its first
      character, and the replace cannot find the new token there. */
  lemma ReplaceTranslateCopy(s: string, table: seq<Specifier>, e: Specifier)
    requires WellFormed(table) && TokenShape(e.token) && FragmentShape(e.fragment)
    requires s != [] && FirstMatch(s, table) == |table| && !(e.token <= s)
    requires Replace(Translate(s[1..], table), e.token, e.fragment) == Translate(s[1..], table + [e])
    ensures Replace(Translate(s, table), e.token, e.fragment) == Translate(s, table + [e])
  {
    var p := e.token;
    FirstMatchExtended(s, table, e);
    TranslateUnfold(s, table);
    var x := Translate(s[1..], table);
    if p <= [s[0]] + x {
      TokenAtHead(s, table, p);
    }
    assert ([s[0]] + x)[1..] == x;
  }

  /** One replace step, applied to a partial translation, extends the table
      by one entry: this is why the order of the chain does not matter. */
  lemma {:induction false} ReplaceTranslate(s: string, table: seq<Specifier>, e: Specifier)
    requires WellFormed(table) && TokenShape(e.token) && FragmentShape(e.fragment)
    ensures Replace(Translate(s, table), e.token, e.fragment) == Translate(s, table + [e])
    decreases |s|
  {
    if s == [] {
      assert !(e.token <= []);
    } else {
      var k := FirstMatch(s, table);
      if k < |table| {
        ReplaceTranslate(s[|table[k].token|..], table, e);
        ReplaceTranslateOld(s, table, e);
      } else if e.token <= s {
        ReplaceTranslate(s[|e.token|..], table, e);
        ReplaceTranslateNew(s, table, e);
      } else {
        ReplaceTranslate(s[1..], table, e);
        ReplaceTranslateCopy(s, table, e);
      }
    }
  }

  /** One step of the chain: replacing the k-th token in the translation by
      the first k specifiers gives the translation by the first k + 1. */
  lemma ChainStep(s: string, k: nat, token: string, fragment: string, done: string) returns (next: string)
    requires k < |Specifiers| && Specifiers[k] == Specifier(token, fragment)
    requires done == Translate(s, Specifiers[..k])
    ensures next == Replace(done, token, fragment)
    ensures next == Translate(s, Specifiers[..k + 1])
    ensures k + 1 == |Specifiers| ==> next == Translate(s, Specifiers)
  {
    SpecifiersShape();
    assert Specifiers[..|Specifiers|] == Specifiers;
    var prefix := Specifiers[..k];
    assert Specifiers[..k + 1] == prefix + [Specifiers[k]];
    assert WellFormed(prefix) by {
      forall i | 0 <= i < |prefix| ensures TokenShape(prefix[i].token) && FragmentShape(prefix[i].fragment) {
        assert prefix[i] == Specifiers[i];
      }
    }
    ReplaceTranslate(s, prefix, Specifiers[k]);
    next := Replace(done, token, fragment);
  }

  // ---------------------------------------------------------------------
  // What the conversion guarantees

  /** The first seven steps of the chain (the year, month-number and
      month-name specifiers). */
  lemma ChainLow(timeFormat: string) returns (s: string)
    ensures s == Translate(timeFormat, Specifiers[..7])
    ensures s == Replace(Replace(Replace(Replace(Replace(Replace(Replace(timeFormat,
      "%Y", @"\d{1,4}"),
      "%C", @"\d{1,2}"),
      "%y", @"\d{1,2"),
      "%m", @"\d{1,2}"),
      "%b", @"[A-Za-z]{3}"),
      "%B", @"[A-Za-z]{3,4,5,6,7,8,9}"),
      "%h", @"[A-Za-z]{3}")
  {
    SpecifierRowsLow();
    TranslateEmptyTable(timeFormat);
    assert Specifiers[..0] == [];
    s := timeFormat;
    s := ChainStep(timeFormat, 0, "%Y", @"\d{1,4}", s);
    s := ChainStep(timeFormat, 1, "%C", @"\d{1,2}", s);
    s := ChainStep(timeFormat, 2, "%y", @"\d{1,2", s);
    s := ChainStep(timeFormat, 3, "%m", @"\d{1,2}", s);
    s := ChainStep(timeFormat, 4, "%b", @"[A-Za-z]{3}", s);
    s := ChainStep(timeFormat, 5, "%B", @"[A-Za-z]{3,4,5,6,7,8,9}", s);
    s := ChainStep(timeFormat, 6, "%h", @"[A-Za-z]{3}", s);
  }

  /** The replace chain equals the one-pass translation by the table. */
  lemma StrftimeIsOnePass(timeFormat: string)
    ensures StrftimeToRegex(timeFormat) == Translate(timeFormat, Specifiers)
  {
    SpecifierRowsLow();
    SpecifierRowsHigh();
    var s := ChainLow(timeFormat);
    s := ChainStep(timeFormat, 7, "%d", @"\d{1,2}", s);
    s := ChainStep(timeFormat, 8, "%H", @"\d{1,2}", s);
    s := ChainStep(timeFormat, 9, "%M", @"\d{1,2}", s);
    s := ChainStep(timeFormat, 10, "%S", @"\d{1,2}", s);
    s := ChainStep(timeFormat, 11, "%.f", @"\d{1,}", s);
    s := ChainStep(timeFormat, 12, "%s", @"\d{1,10}", s);
  }

  // ---------------------------------------------------------------------
  // No specifier token survives the conversion

  /** The one-pass translation never leaves a token of the table behind:
      fragments contain no `%`, and copied text holds no token. */
  lemma {:induction false} TranslateHasNoToken(s: string, table: seq<Specifier>, i: nat)
    requires WellFormed(table) && i < |table|
    ensures !Contains(Translate(s, table), table[i].token)
    decreases |s|
  {
    var t := table[i].token;
    if s == [] {
      assert !(t <= []);
    } else {
      var k := FirstMatch(s, table);
      TranslateUnfold(s, table);
      if k < |table| {
        var f := table[k].fragment;
        var x := Translate(s[|table[k].token|..], table);
        TranslateHasNoToken(s[|table[k].token|..], table, i);
        assert '%' !in f;
        ContainsSkipsPrefix(f, x, t);
      } else {
        var x := Translate(s[1..], table);
        TranslateHasNoToken(s[1..], table, i);
        FirstMatchMinimal(s, table);
        if t <= [s[0]] + x {
          TokenAtHead(s, table, t);
        }
        assert ([s[0]] + x)[1..] == x;
      }
    }
  }

  /** None of the thirteen tokens occurs in a converted format. */
  lemma NoTokenSurvives(timeFormat: string, i: nat)
    requires i < |Specifiers|
    ensures !Contains(StrftimeToRegex(timeFormat), Specifiers[i].token)
  {
    SpecifiersShape();
    StrftimeIsOnePass(timeFormat);
    TranslateHasNoToken(timeFormat, Specifiers, i);
  }

  // ---------------------------------------------------------------------
  // Formats assembled from specifiers and literal text

  /** A piece of a format: a specifier of the table, by its index, or
      literal text. */
  datatype Piece = Spec(index: nat) | Literal(text: string)

  /** Every specifier index is in the table, and literal text holds no `%`. */
  predicate ValidPieces(ps: seq<Piece>) {
    forall n :: 0 <= n < |ps| ==>
      (ps[n].Spec? ==> ps[n].index < |Specifiers|) && (ps[n].Literal? ==> '%' !in ps[n].text)
  }

  /** The format text the pieces spell. */
  function Format(ps: seq<Piece>): string
    requires ValidPieces(ps)
  {
    if ps == [] then []
    else
      match ps[0]
      case Spec(k) => Specifiers[k].token + Format(ps[1..])
      case Literal(text) => text + Format(ps[1..])
  }

  /** The regex the pieces stand for: each specifier becomes its fragment,
      and literal text is kept verbatim (it is not escaped). */
  function PiecesRegex(ps: seq<Piece>): string
    requires ValidPieces(ps)
  {
    if ps == [] then []
    else
      match ps[0]
      case Spec(k) => Specifiers[k].fragment + PiecesRegex(ps[1..])
      case Literal(text) => text + PiecesRegex(ps[1..])
  }

  lemma {:induction false} TranslatePieces(ps: seq<Piece>)
    requires ValidPieces(ps)
    ensures Translate(Format(ps), Specifiers) == PiecesRegex(ps)
    decreases |ps|
  {
    SpecifiersShape();
    if ps != [] {
      TranslatePieces(ps[1..]);
      match ps[0]
      case Spec(k) =>
        TranslateToken(Specifiers, k, Format(ps[1..]));
      case Literal(text) =>
        TranslatePassThrough(text, Format(ps[1..]), Specifiers);
    }
  }

  /** Converting a format made of specifiers and `%`-free text replaces each
      specifier by its own fragment and keeps the text: no replacement
      clobbers another specifier, whatever the order of the pieces. */
  lemma PiecesCompile(ps: seq<Piece>)
    requires ValidPieces(ps)
    ensures StrftimeToRegex(Format(ps)) == PiecesRegex(ps)
  {
    StrftimeIsOnePass(Format(ps));
    TranslatePieces(ps);
  }

  /** One specifier in front of text whose translation is known. */
  lemma TokenStep(k: nat, token: string, fragment: string, rest: string, x: string)
    requires k < |Specifiers| && Specifiers[k] == Specifier(token, fragment)
    requires Translate(rest, Specifiers) == x
    ensures Translate(token + rest, Specifiers) == fragment + x
  {
    SpecifiersShape();
    TranslateToken(Specifiers, k, rest);
  }

  /** `%`-free text in front of text whose translation is known. */
  lemma TextStep(text: string, rest: string, x: string)
    requires '%' !in text && Translate(rest, Specifiers) == x
    ensures Translate(text + rest, Specifiers) == text + x
  {
    SpecifiersShape();
    TranslatePassThrough(text, rest, Specifiers);
  }

  /** A specifier on its own translates to its fragment. */
  lemma TokenAlone(k: nat, token: string, fragment: string)
    requires k < |Specifiers| && Specifiers[k] == Specifier(token, fragment)
    ensures Translate(token, Specifiers) == fragment
  {
    SpecifiersShape();
    TranslateToken(Specifiers, k, []);
    assert token + [] == token;
    assert Translate([], Specifiers) == [];
    assert fragment + [] == fragment;
  }

  lemma Reassociate(p0: string, p1: string, p2: string, p3: string, p4: string, p5: string,
                    p6: string, p7: string, p8: string, p9: string, p10: string, p11: string)
    ensures p0 + (p1 + (p2 + (p3 + (p4 + (p5 + (p6 + (p7 + (p8 + (p9 + (p10 + p11))))))))))
      == p0 + p1 + p2 + p3 + p4 + p5 + p6 + p7 + p8 + p9 + p10 + p11
  {
  }

  /** The default template, split at its specifiers. */
  lemma DefaultFormatSplit()
    ensures "%d/%b/%Y:%H:%M:%S%.f" == "%d" + ("/" + ("%b" + ("/" + ("%Y" + (":" + ("%H" + (":" + ("%M" + (":" + ("%S" + "%.f"))))))))))
  {
  }

  /** The expected regex, split at the fragments. */
  lemma DefaultRegexSplit()
    ensures @"\d{1,2}/[A-Za-z]{3}/\d{1,4}:\d{1,2}:\d{1,2}:\d{1,2}\d{1,}" == @"\d{1,2}" + ("/" + (@"[A-Za-z]{3}" + ("/" + (@"\d{1,4}" + (":" + (@"\d{1,2}" + (":" + (@"\d{1,2}" + (":" + (@"\d{1,2}" + @"\d{1,}"))))))))))
  {
    assert @"\d{1,2}/" == @"\d{1,2}" + "/";
    assert @"\d{1,2}/[A-Za-z]{3}" == @"\d{1,2}/" + @"[A-Za-z]{3}";
    assert @"\d{1,2}/[A-Za-z]{3}/" == @"\d{1,2}/[A-Za-z]{3}" + "/";
    assert @"\d{1,2}/[A-Za-z]{3}/\d{1,4}" == @"\d{1,2}/[A-Za-z]{3}/" + @"\d{1,4}";
    assert @"\d{1,2}/[A-Za-z]{3}/\d{1,4}:" == @"\d{1,2}/[A-Za-z]{3}/\d{1,4}" + ":";
    assert @"\d{1,2}/[A-Za-z]{3}/\d{1,4}:\d{1,2}" == @"\d{1,2}/[A-Za-z]{3}/\d{1,4}:" + @"\d{1,2}";
    assert @"\d{1,2}/[A-Za-z]{3}/\d{1,4}:\d{1,2}:" == @"\d{1,2}/[A-Za-z]{3}/\d{1,4}:\d{1,2}" + ":";
    assert @"\d{1,2}/[A-Za-z]{3}/\d{1,4}:\d{1,2}:\d{1,2}" == @"\d{1,2}/[A-Za-z]{3}/\d{1,4}:\d{1,2}:" + @"\d{1,2}";
    assert @"\d{1,2}/[A-Za-z]{3}/\d{1,4}:\d{1,2}:\d{1,2}:" == @"\d{1,2}/[A-Za-z]{3}/\d{1,4}:\d{1,2}:\d{1,2}" + ":";
    assert @"\d{1,2}/[A-Za-z]{3}/\d{1,4}:\d{1,2}:\d{1,2}:\d{1,2}" == @"\d{1,2}/[A-Za-z]{3}/\d{1,4}:\d{1,2}:\d{1,2}:" + @"\d{1,2}";
    assert @"\d{1,2}/[A-Za-z]{3}/\d{1,4}:\d{1,2}:\d{1,2}:\d{1,2}\d{1,}" == @"\d{1,2}/[A-Za-z]{3}/\d{1,4}:\d{1,2}:\d{1,2}:\d{1,2}" + @"\d{1,}";
    Reassociate(@"\d{1,2}", "/", @"[A-Za-z]{3}", "/", @"\d{1,4}", ":", @"\d{1,2}", ":", @"\d{1,2}", ":", @"\d{1,2}", @"\d{1,}");
  }

  /** The time of day of the default template, `%H:%M:%S%.f`, translated. */
  lemma DefaultTimeTranslation()
    ensures Translate("%H" + (":" + ("%M" + (":" + ("%S" + "%.f")))), Specifiers)
      == @"\d{1,2}" + (":" + (@"\d{1,2}" + (":" + (@"\d{1,2}" + @"\d{1,}"))))
  {
    SpecifierRowsLow();
    SpecifierRowsHigh();
    TokenAlone(11, "%.f", @"\d{1,}");
    var format, regex := "%.f", @"\d{1,}";
    TokenStep(10, "%S", @"\d{1,2}", format, regex);
    format, regex := "%S" + format, @"\d{1,2}" + regex;
    TextStep(":", format, regex);
    format, regex := ":" + format, ":" + regex;
    TokenStep(9, "%M", @"\d{1,2}", format, regex);
    format, regex := "%M" + format, @"\d{1,2}" + regex;
    TextStep(":", format, regex);
    format, regex := ":" + format, ":" + regex;
    TokenStep(8, "%H", @"\d{1,2}", format, regex);
  }

  /** The whole default template, split at its specifiers, translated. */
  lemma DefaultTranslation()
    ensures Translate("%d" + ("/" + ("%b" + ("/" + ("%Y" + (":" + ("%H" + (":" + ("%M" + (":" + ("%S" + "%.f")))))))))), Specifiers)
      == @"\d{1,2}" + ("/" + (@"[A-Za-z]{3}" + ("/" + (@"\d{1,4}" + (":" + (@"\d{1,2}" + (":" + (@"\d{1,2}" + (":" + (@"\d{1,2}" + @"\d{1,}"))))))))))
  {
    SpecifierRowsLow();
    SpecifierRowsHigh();
    DefaultTimeTranslation();
    var format, regex := "%H" + (":" + ("%M" + (":" + ("%S" + "%.f")))), @"\d{1,2}" + (":" + (@"\d{1,2}" + (":" + (@"\d{1,2}" + @"\d{1,}"))));
    TextStep(":", format, regex);
    format, regex := ":" + format, ":" + regex;
    TokenStep(0, "%Y", @"\d{1,4}", format, regex);
    format, regex := "%Y" + format, @"\d{1,4}" + regex;
    TextStep("/", format, regex);
    format, regex := "/" + format, "/" + regex;
    TokenStep(4, "%b", @"[A-Za-z]{3}", format, regex);
    format, regex := "%b" + format, @"[A-Za-z]{3}" + regex;
    TextStep("/", format, regex);
    format, regex := "/" + format, "/" + regex;
    TokenStep(7, "%d", @"\d{1,2}", format, regex);
  }

  /** The default template converts to exactly this regex; the dot of `%.f`
      is consumed together with the token. */
  lemma DefaultTemplateRegex()
    ensures StrftimeToRegex("%d/%b/%Y:%H:%M:%S%.f") == @"\d{1,2}/[A-Za-z]{3}/\d{1,4}:\d{1,2}:\d{1,2}:\d{1,2}\d{1,}"
  {
    DefaultTranslation();
    DefaultFormatSplit();
    DefaultRegexSplit();
    StrftimeIsOnePass("%d" + ("/" + ("%b" + ("/" + ("%Y" + (":" + ("%H" + (":" + ("%M" + (":" + ("%S" + "%.f")))))))))));
  }


  /** Two specifiers side by side each become their own fragment. */
  lemma TwoSpecifiers(i: nat, j: nat)
    requires i < |Specifiers| && j < |Specifiers|
    ensures StrftimeToRegex(Specifiers[i].token + Specifiers[j].token)
      == Specifiers[i].fragment + Specifiers[j].fragment
  {
    var a, b := Specifiers[i], Specifiers[j];
    TokenAlone(j, b.token, b.fragment);
    TokenStep(i, a.token, a.fragment, b.token, b.fragment);
    StrftimeIsOnePass(a.token + b.token);
  }

  /** Replacement is case-sensitive: `%y`/`%Y`, `%b`/`%B` and `%s`/`%S`
      each become their own fragment, in either order. */
  lemma CaseSensitivity()
    ensures StrftimeToRegex("%y" + "%Y") == @"\d{1,2" + @"\d{1,4}"
    ensures StrftimeToRegex("%Y" + "%y") == @"\d{1,4}" + @"\d{1,2"
    ensures StrftimeToRegex("%b" + "%B") == @"[A-Za-z]{3}" + @"[A-Za-z]{3,4,5,6,7,8,9}"
    ensures StrftimeToRegex("%B" + "%b") == @"[A-Za-z]{3,4,5,6,7,8,9}" + @"[A-Za-z]{3}"
    ensures StrftimeToRegex("%S" + "%s") == @"\d{1,2}" + @"\d{1,10}"
    ensures StrftimeToRegex("%s" + "%S") == @"\d{1,10}" + @"\d{1,2}"
  {
    SpecifierRowsLow();
    SpecifierRowsHigh();
    TwoSpecifiers(2, 0);
    TwoSpecifiers(0, 2);
    TwoSpecifiers(4, 5);
    TwoSpecifiers(5, 4);
    TwoSpecifiers(10, 12);
    TwoSpecifiers(12, 10);
  }
}
