/** What the printer and the parser of RecordFile do to each other. */
module RecordRoundTrip {
  import opened Wrappers
  import opened RecordFile
  import S = StrList
  import B = StrBuf

  /* ---------- the lines of a printed record ---------- */

  function FieldLines(f: nat, v: Option<string>): seq<string>
    requires f < FIELDS
  {
    [FIELD_IDS[f]] + if IsBlank(v) then [] else ContentLines(v.value)
  }

  function RecordLines(rec: Record, f: nat): seq<string>
    requires f <= FIELDS
    decreases FIELDS - f
  {
    if f == FIELDS then [] else FieldLines(f, rec[f]) + RecordLines(rec, f + 1)
  }

  lemma HeaderShape(f: nat)
    requires f < FIELDS
    ensures '\n' !in FIELD_IDS[f] && IsHeader(FIELD_IDS[f]) && KeepsLine(FIELD_IDS[f])
  {
  }

  lemma FieldTextLines(f: nat, v: Option<string>, rest: string)
    requires f < FIELDS
    ensures ContentLines(FieldText(f, v) + rest) == FieldLines(f, v) + ContentLines(rest)
  {
    hide ContentLines;
    var id := FIELD_IDS[f];
    var val := if IsBlank(v) then "" else v.value;
    HeaderShape(f);
    ContentOfLine(id);
    ContentOfLine("");
    assert FieldText(f, v) + rest == id + "\n" + (val + "\n" + ("" + "\n" + rest));
    ContentConcat("", rest);
    ContentConcat(val, "" + "\n" + rest);
    ContentConcat(id, val + "\n" + ("" + "\n" + rest));
    assert [id] + (ContentLines(val) + ([] + ContentLines(rest))) == [id] + ContentLines(val) + ContentLines(rest);
    assert IsBlank(v) ==> [id] + [] == [id];
  }

  lemma {:induction false} FieldsFromLines(rec: Record, f: nat, rest: string)
    requires f <= FIELDS
    ensures ContentLines(FieldsFrom(rec, f) + rest) == RecordLines(rec, f) + ContentLines(rest)
    decreases FIELDS - f
  {
    hide ContentLines, FieldText, FieldLines;
    if f == FIELDS {
      assert FieldsFrom(rec, f) + rest == rest;
    } else {
      FieldsFromLines(rec, f + 1, rest);
      FieldTextLines(f, rec[f], FieldsFrom(rec, f + 1) + rest);
      assert FieldsFrom(rec, f) + rest == FieldText(f, rec[f]) + (FieldsFrom(rec, f + 1) + rest);
      assert FieldLines(f, rec[f]) + (RecordLines(rec, f + 1) + ContentLines(rest))
          == FieldLines(f, rec[f]) + RecordLines(rec, f + 1) + ContentLines(rest);
    }
  }

  // The instructions printed below the record hold nothing but comments
  ghost predicate OnlyComments(message: string) {
    ContentLines(message) == []
  }

  lemma PrintedLines(rec: Record, message: string)
    requires OnlyComments(message)
    ensures LinesSeen(Printed(rec, message)) == RecordLines(rec, 0)
  {
    hide ContentLines, FieldsFrom, LinesSeen;
    NewlineMakesItSafe(Printed(rec, message));
    FieldsFromLines(rec, 0, message + "\n");
    assert message + "\n" == message + "\n" + "";
    ContentConcat(message, "");
    ContentOfLine("");
    assert RecordLines(rec, 0) + ([] + []) == RecordLines(rec, 0);
  }

  /* ---------- reading one line per field ---------- */

  // A value of one line that is neither a comment nor a header
  predicate OneLine(v: string) {
    '\n' !in v && v != "" && v[0] != '#' && v[0] != ':'
  }

  // What such a value is read as
  function Recovered(v: Option<string>): Option<string> {
    if IsBlank(v) then None else Some(Piece(v.value))
  }

  function RecoveredFrom(acc: Record, rec: Record, f: nat): (r: Record)
    requires f <= FIELDS
  {
    seq(FIELDS, g requires 0 <= g < FIELDS => if g < f || IsBlank(rec[g]) then acc[g] else Recovered(rec[g]))
  }

  lemma FieldOfId(f: nat)
    requires f < FIELDS
    ensures FieldOf(FIELD_IDS[f]) == Some(f)
  {
    assert FIELD_IDS[f] in FIELD_IDS;
    var g := FieldOf(FIELD_IDS[f]).value;
    if g < f {
      IdsDistinct(g, f);
    } else if f < g {
      IdsDistinct(f, g);
    }
  }

  lemma RecordLinesStart(rec: Record, f: nat)
    requires f <= FIELDS
    ensures BodyLength(RecordLines(rec, f)) == 0
  {
    if f < FIELDS {
      HeaderShape(f);
      assert RecordLines(rec, f)[0] == FIELD_IDS[f];
    }
  }

  // A section whose body is one line, or none
  lemma ReadSection(acc: Record, f: nat, body: seq<string>, rest: seq<string>)
    requires f < FIELDS && |body| <= 1 && (forall l :: l in body ==> !IsHeader(l)) && BodyLength(rest) == 0
    ensures Parsed(acc, [FIELD_IDS[f]] + body + rest) ==
      if body == [] then Parsed(acc, rest) else Parsed(acc[f := Some(Piece(body[0]))], rest)
  {
    hide Piece, Parsed, Body;
    var lines := [FIELD_IDS[f]] + body + rest;
    HeaderShape(f);
    FieldOfId(f);
    hide FieldOf;
    assert lines[0] == FIELD_IDS[f] && lines[0..] == lines && lines[0 + 1..] == body + rest;
    assert |body| == 1 ==> body[0] in body;
    BodyLengthIs(body + rest, |body|);
    ParsedStep(acc, lines, 0);
    if body != [] {
      assert lines[0 + 1..0 + 1 + 1] == [] + [body[0]] && lines[0 + 1 + 1..] == rest;
      BodySnoc([], body[0]);
      BodyOfNone();
      assert "" + Piece(body[0]) == Piece(body[0]);
    } else {
      assert body + rest == rest;
    }
  }

  lemma {:induction false} ReadRecordLines(acc: Record, rec: Record, f: nat)
    requires f <= FIELDS
    requires forall g :: 0 <= g < FIELDS ==> IsBlank(rec[g]) || OneLine(rec[g].value)
    ensures Parsed(acc, RecordLines(rec, f)) == RecoveredFrom(acc, rec, f)
    decreases FIELDS - f
  {
    hide ContentLines, Parsed, BodyLength, Piece, B.AllSpace;
    if f == FIELDS {
      ParsedNothing(acc);
    } else {
      var body := if IsBlank(rec[f]) then [] else ContentLines(rec[f].value);
      if !IsBlank(rec[f]) {
        ContentOfLine(rec[f].value);
      }
      RecordLinesStart(rec, f + 1);
      ReadSection(acc, f, body, RecordLines(rec, f + 1));
      var acc' := if body == [] then acc else acc[f := Some(Piece(body[0]))];
      ReadRecordLines(acc', rec, f + 1);
    }
  }

  /* ---------- a reader never makes more text than it finds ---------- */

  function LengthOf(v: Option<string>): nat {
    if v.Some? then |v.value| else 0
  }

  function TotalLength(fields: seq<Option<string>>): nat {
    if fields == [] then 0
    else TotalLength(fields[..|fields| - 1]) + LengthOf(fields[|fields| - 1])
  }

  lemma {:induction false} TotalLengthUpdate(fields: seq<Option<string>>, f: nat, v: string)
    requires f < |fields|
    ensures TotalLength(fields[f := Some(v)]) <= TotalLength(fields) + |v|
  {
    var n := |fields| - 1;
    if f == n {
      assert fields[f := Some(v)][..n] == fields[..n];
    } else {
      assert fields[f := Some(v)][..n] == fields[..n][f := Some(v)];
      TotalLengthUpdate(fields[..n], f, v);
    }
  }

  // The characters that stand outside headers
  function TextLength(lines: seq<string>): nat {
    if lines == [] then 0
    else TextLength(lines[..|lines| - 1]) + if IsHeader(lines[|lines| - 1]) then 0 else |lines[|lines| - 1]|
  }

  lemma {:induction false} TextLengthConcat(a: seq<string>, b: seq<string>)
    ensures TextLength(a + b) == TextLength(a) + TextLength(b)
  {
    if b == [] {
      assert a + b == a;
    } else {
      TextLengthConcat(a, b[..|b| - 1]);
      assert (a + b)[..|a + b| - 1] == a + b[..|b| - 1];
    }
  }

  lemma {:induction false} BodyIsText(lines: seq<string>)
    requires forall k :: 0 <= k < |lines| ==> !IsHeader(lines[k])
    ensures |Body(lines)| == TextLength(lines)
  {
    if lines != [] {
      BodyIsText(lines[..|lines| - 1]);
    }
  }

  lemma {:induction false} ParsedLength(rec: Record, lines: seq<string>)
    ensures TotalLength(Parsed(rec, lines)) <= TotalLength(rec) + TextLength(lines)
    decreases |lines|
  {
    hide FieldOf, Body, TotalLength, TextLength;
    if lines == [] {
      assert Parsed(rec, lines) == rec;
    } else {
      assert lines == [lines[0]] + lines[1..];
      TextLengthConcat([lines[0]], lines[1..]);
      var n := BodyLength(lines[1..]);
      var field := if IsHeader(lines[0]) then FieldOf(lines[0]) else None;
      if field.None? || n == 0 {
        ParsedLength(rec, lines[1..]);
      } else {
        var body, rest := lines[1..][..n], lines[1..][n..];
        assert lines[1..] == body + rest;
        TextLengthConcat(body, rest);
        BodyIsText(body);
        TotalLengthUpdate(rec, field.value, Body(body));
        ParsedLength(rec[field.value := Some(Body(body))], rest);
      }
    }
  }

  // Lines that are dropped, and newlines, are lost
  lemma {:induction false} ValueLength(v: string)
    ensures TextLength(ContentLines(v)) <= |v|
    ensures v != "" && !OneLine(v) ==> TextLength(ContentLines(v)) < |v|
    decreases |v|
  {
    hide TextLength;
    if '\n' !in v {
      ContentOfLine(v);
      OneLineLength(v);
      hide ContentLines;
    } else {
      hide ContentLines;
      var k := S.IndexOf(v, '\n');
      var x, y := v[..k], v[k + 1..];
      assert v == x + "\n" + y;
      ContentConcat(x, y);
      TextLengthConcat(ContentLines(x), ContentLines(y));
      ValueLength(x);
      ValueLength(y);
    }
  }

  lemma OneLineLength(v: string)
    ensures TextLength([]) == 0
    ensures TextLength([v]) == if IsHeader(v) then 0 else |v|
  {
    assert [v][..0] == [];
  }

  function Normalized(rec: Record): Record {
    seq(FIELDS, g requires 0 <= g < FIELDS => if IsBlank(rec[g]) then None else rec[g])
  }

  function NormalizedLength(rec: Record, f: nat): nat
    requires f <= FIELDS
    decreases FIELDS - f
  {
    if f == FIELDS then 0
    else (if IsBlank(rec[f]) then 0 else |rec[f].value|) + NormalizedLength(rec, f + 1)
  }

  lemma {:induction false} RecordLength(rec: Record, f: nat)
    requires f <= FIELDS
    ensures TextLength(RecordLines(rec, f)) <= NormalizedLength(rec, f)
    ensures (exists g :: f <= g < FIELDS && !IsBlank(rec[g]) && !OneLine(rec[g].value)) ==>
      TextLength(RecordLines(rec, f)) < NormalizedLength(rec, f)
    decreases FIELDS - f
  {
    hide TextLength, FieldLines, IsBlank, OneLine;
    if f == FIELDS {
      OneLineLength("");
    } else {
      RecordLength(rec, f + 1);
      FieldLength(f, rec[f]);
      TextLengthConcat(FieldLines(f, rec[f]), RecordLines(rec, f + 1));
    }
  }

  lemma FieldLength(f: nat, v: Option<string>)
    requires f < FIELDS
    ensures IsBlank(v) ==> TextLength(FieldLines(f, v)) == 0
    ensures !IsBlank(v) ==> TextLength(FieldLines(f, v)) <= |v.value|
    ensures !IsBlank(v) && !OneLine(v.value) ==> TextLength(FieldLines(f, v)) < |v.value|
  {
    hide TextLength, ContentLines, B.AllSpace, OneLine, FieldOf, IsHeader;
    var id := FIELD_IDS[f];
    HeaderShape(f);
    OneLineLength(id);
    if IsBlank(v) {
      assert [id] + [] == [id];
    } else {
      TextLengthConcat([id], ContentLines(v.value));
      ValueLength(v.value);
      NonBlankIsNonEmpty(v.value);
    }
  }

  lemma NonBlankIsNonEmpty(v: string)
    requires !IsBlank(Some(v))
    ensures v != ""
  {
  }

  lemma {:induction false} NormalizedTotal(rec: Record, f: nat)
    requires f <= FIELDS
    ensures TotalLength(Normalized(rec)) == TotalLength(Normalized(rec)[..f]) + NormalizedLength(rec, f)
    decreases FIELDS - f
  {
    hide B.AllSpace;
    if f == FIELDS {
      assert Normalized(rec)[..f] == Normalized(rec);
    } else {
      NormalizedTotal(rec, f + 1);
      assert Normalized(rec)[..f + 1] == Normalized(rec)[..f] + [Normalized(rec)[f]];
      assert Normalized(rec)[..f + 1][..f] == Normalized(rec)[..f];
    }
  }

  /* ---------- main results ---------- */

  // A field that survives: blank, or one line that starts with no reserved character
  predicate Plain(v: Option<string>) {
    IsBlank(v) || (OneLine(v.value) && v.value[0] != '|')
  }

  // If the record comes back, no field was cut
  lemma RecoveredMeansOneLine(rec: Record)
    requires Parsed(EMPTY, RecordLines(rec, 0)) == Normalized(rec)
    ensures forall g :: 0 <= g < FIELDS ==> IsBlank(rec[g]) || OneLine(rec[g].value)
  {
    hide Parsed, RecordLines, TextLength, B.AllSpace, OneLine, Normalized, NormalizedLength;
    ParsedLength(EMPTY, RecordLines(rec, 0));
    assert TotalLength(EMPTY) == 0 by {
      EmptyLength(FIELDS);
      assert EMPTY[..FIELDS] == EMPTY;
    }
    NormalizedTotal(rec, 0);
    assert Normalized(rec)[..0] == [];
    RecordLength(rec, 0);
  }

  lemma {:induction false} EmptyLength(n: nat)
    requires n <= FIELDS
    ensures TotalLength(EMPTY[..n]) == 0
  {
    if n > 0 {
      EmptyLength(n - 1);
      assert EMPTY[..n][..n - 1] == EMPTY[..n - 1];
    }
  }

  // Exactly when printing and reading gives the record back, with blank fields absent
  lemma RoundTrip(rec: Record, message: string)
    requires OnlyComments(message)
    ensures ReadBack(Printed(rec, message)) == Normalized(rec) <==> forall g :: 0 <= g < FIELDS ==> Plain(rec[g])
  {
    hide Parsed, RecordLines, B.AllSpace, OneLine, Printed, OnlyComments, Piece;
    PrintedLines(rec, message);
    if forall g :: 0 <= g < FIELDS ==> Plain(rec[g]) {
      ReadRecordLines(EMPTY, rec, 0);
      forall g | 0 <= g < FIELDS
        ensures RecoveredFrom(EMPTY, rec, 0)[g] == Normalized(rec)[g]
      {
        if !IsBlank(rec[g]) {
          PieceIsItself(rec[g].value);
        }
      }
    } else if ReadBack(Printed(rec, message)) == Normalized(rec) {
      RecoveredMeansOneLine(rec);
      ReadRecordLines(EMPTY, rec, 0);
      var g :| 0 <= g < FIELDS && !Plain(rec[g]);
      assert RecoveredFrom(EMPTY, rec, 0)[g] == Normalized(rec)[g];
      PieceIsItself(rec[g].value);
    }
  }

  lemma PieceIsItself(v: string)
    requires OneLine(v)
    ensures Piece(v) == v <==> v[0] != '|'
  {
    if v[0] == '|' {
      assert Piece(v)[|v| - 1] == '\n';
    }
  }

  // Through the whole reader: a plain record with a site name and a password is accepted, an empty one cancels, and any
  // other is refused. The refusal reads and frees no freed line just when the last field is blank.
  lemma PrintThenRead(rec: Record, message: string)
    requires OnlyComments(message) && forall g :: 0 <= g < FIELDS ==> Plain(rec[g])
    ensures !IsIncomplete(rec) ==> Outcome(Printed(rec, message)) == Complete
    ensures IsIncomplete(rec) ==>
      Outcome(Printed(rec, message)) == if Normalized(rec) == EMPTY then Cancelled else Missing
    ensures ReadIsDefined(Printed(rec, message)) <==> !IsIncomplete(rec) || IsBlank(rec[COMMENT])
  {
    hide Parsed, Printed, OnlyComments, RecordLines, FieldLines, S.Kept, S.Rejected, B.AllSpace;
    hide ReadIsDefined, LastLine;
    RoundTrip(rec, message);
    PrintedLines(rec, message);
    KeysAreDropped(rec, 0);
    ValuesAreKept(rec, 0);
    LastRecordLine(rec, 0);
    FieldLinesLeft(COMMENT, rec[COMMENT]);
    PrintedEnds(rec, message);
    DefinedExactly(Printed(rec, message));
    LastAfterNewline(Printed(rec, message));
    NewlineMakesItSafe(Printed(rec, message));
    HeaderShape(COMMENT);
    assert Normalized(rec) == EMPTY <==> forall g :: 0 <= g < FIELDS ==> Normalized(rec)[g] == None;
    assert forall g :: 0 <= g < FIELDS ==> (Normalized(rec)[g] == None <==> IsBlank(rec[g]));
    assert IsIncomplete(Normalized(rec)) <==> IsIncomplete(rec);
  }

  lemma PrintedEnds(rec: Record, message: string)
    ensures EndsInNewline(Printed(rec, message))
  {
  }

  lemma FieldLinesLeft(f: nat, v: Option<string>)
    requires f < FIELDS && Plain(v)
    ensures var lines := FieldLines(f, v);
      && lines == (if IsBlank(v) then [FIELD_IDS[f]] else [FIELD_IDS[f], v.value])
      && S.Kept(lines, KeepsField) == if IsBlank(v) then [] else [v.value]
  {
    hide S.Kept, ContentLines, B.AllSpace;
    var id := FIELD_IDS[f];
    HeaderShape(f);
    S.Snoc([], id, KeepsField);
    assert [] + [id] == [id];
    if IsBlank(v) {
      assert [id] + [] == [id];
    } else {
      ContentOfLine(v.value);
      S.Snoc([id], v.value, KeepsField);
      assert [id] + [v.value] == [id, v.value] && [] + [v.value] == [v.value];
    }
  }

  // Of the lines of a plain record the second filter drops exactly the keys
  lemma {:induction false} KeysAreDropped(rec: Record, f: nat)
    requires f <= FIELDS && forall g :: 0 <= g < FIELDS ==> Plain(rec[g])
    ensures |S.Rejected(RecordLines(rec, f), KeepsField)| == FIELDS - f
    decreases FIELDS - f
  {
    hide S.Kept, S.Rejected, FieldLines, IsBlank, Plain, KeepsField;
    if f < FIELDS {
      var lines, rest := FieldLines(f, rec[f]), RecordLines(rec, f + 1);
      KeysAreDropped(rec, f + 1);
      FieldLinesLeft(f, rec[f]);
      S.KeptConcat(lines, rest, KeepsField);
      assert |S.Rejected(lines + rest, KeepsField)| == 1 + |S.Rejected(rest, KeepsField)|;
    }
  }

  lemma {:induction false} ValuesAreKept(rec: Record, f: nat)
    requires f <= FIELDS && forall g :: 0 <= g < FIELDS ==> Plain(rec[g])
    ensures S.Kept(RecordLines(rec, f), KeepsField) == [] <==> forall g :: f <= g < FIELDS ==> IsBlank(rec[g])
    decreases FIELDS - f
  {
    hide S.Kept, FieldLines, IsBlank, Plain, KeepsField;
    if f == FIELDS {
      S.KeptNone(KeepsField);
    } else {
      ValuesAreKept(rec, f + 1);
      FieldLinesLeft(f, rec[f]);
      S.KeptConcat(FieldLines(f, rec[f]), RecordLines(rec, f + 1), KeepsField);
      assert S.Kept(RecordLines(rec, f), KeepsField) == [] <==>
        IsBlank(rec[f]) && forall g :: f + 1 <= g < FIELDS ==> IsBlank(rec[g]);
    }
  }

  lemma {:induction false} LastRecordLine(rec: Record, f: nat)
    requires f < FIELDS
    ensures var lines, last := RecordLines(rec, f), FieldLines(COMMENT, rec[COMMENT]);
      lines != [] && last != [] && lines[|lines| - 1] == last[|last| - 1]
    decreases FIELDS - f
  {
    hide FieldLines;
    SomeLines(f, rec[f]);
    if f == COMMENT {
      assert RecordLines(rec, FIELDS) == [];
    } else {
      LastRecordLine(rec, f + 1);
    }
  }

  lemma SomeLines(f: nat, v: Option<string>)
    requires f < FIELDS
    ensures FieldLines(f, v) != []
  {
  }

  /* ---------- lines that do not matter ---------- */

  // Blank lines and comments may be put in, or taken out, anywhere before the end of a text that ends in a newline
  lemma IgnoredLinesDoNotMatter(x: string, c: string, y: string)
    requires x == "" || EndsInNewline(x)
    requires EndsInNewline(x + y)
    requires '\n' !in c && !KeepsLine(c)
    ensures LinesSeen(x + c + "\n" + y) == LinesSeen(x + y)
    ensures ReadBack(x + c + "\n" + y) == ReadBack(x + y)
    ensures Outcome(x + c + "\n" + y) == Outcome(x + y)
  {
    hide ContentLines, LinesSeen, Parsed;
    NewlineMakesItSafe(x + y);
    NewlineMakesItSafe(x + c + "\n" + y);
    ContentConcat(c, y);
    ContentOfLine(c);
    assert [] + ContentLines(y) == ContentLines(y);
    if x == "" {
      assert x + y == y && x + c + "\n" + y == c + "\n" + y;
    } else {
      var x' := x[..|x| - 1];
      assert x + y == x' + "\n" + y;
      assert x + c + "\n" + y == x' + "\n" + (c + "\n" + y);
      ContentConcat(x', y);
      ContentConcat(x', c + "\n" + y);
    }
  }

  /* ---------- the message below the record ---------- */

  // Any message made of comment lines will do, whatever they say
  lemma {:induction false} CommentLinesVanish(lines: seq<string>)
    requires lines != [] && forall l :: l in lines ==> !KeepsLine(l) && '\n' !in l
    ensures OnlyComments(S.JoinWith(lines, "\n"))
    decreases |lines|
  {
    hide ContentLines;
    ContentOfLine(lines[0]);
    if |lines| > 1 {
      CommentLinesVanish(lines[1..]);
      ContentConcat(lines[0], S.JoinWith(lines[1..], "\n"));
    }
  }
}
