/** What the sections of a record file mean, for any file: which of them count, and how their lines become text. */
module RecordSections {
  import opened Wrappers
  import opened RecordFile
  import S = StrList

  // A line of a section: with a bar in front it is taken literally, as a line of its own
  datatype Line = Barred(text: string) | Plain(text: string)

  function Written(l: Line): string {
    match l
    case Barred(text) => "|" + text
    case Plain(text) => text
  }

  // What the line contributes to its field
  function Meant(l: Line): string {
    match l
    case Barred(text) => text + "\n"
    case Plain(text) => text
  }

  // An unmarked line must not look like a marked one or like a key
  predicate IsLine(l: Line) {
    l.Plain? && l.text != "" ==> l.text[0] != '|' && l.text[0] != ':'
  }

  function WrittenLines(ls: seq<Line>): (r: seq<string>)
    ensures |r| == |ls|
  {
    seq(|ls|, i requires 0 <= i < |ls| => Written(ls[i]))
  }

  function Text(ls: seq<Line>): string {
    if ls == [] then "" else Text(ls[..|ls| - 1]) + Meant(ls[|ls| - 1])
  }

  datatype Section = Section(key: string, body: seq<Line>)

  ghost predicate IsSection(s: Section) {
    s.key != "" && s.key[0] == ':' && forall l :: l in s.body ==> IsLine(l)
  }

  function Layout(ss: seq<Section>): seq<string> {
    if ss == [] then [] else [ss[0].key] + WrittenLines(ss[0].body) + Layout(ss[1..])
  }

  // The text of the last section with this key that has any lines, or what there was before
  function LastText(ss: seq<Section>, key: string, before: Option<string>): Option<string> {
    if ss == [] then before
    else
      var s := ss[|ss| - 1];
      if s.key == key && s.body != [] then Some(Text(s.body)) else LastText(ss[..|ss| - 1], key, before)
  }

  lemma WrittenIsNoHeader(ls: seq<Line>)
    requires forall l :: l in ls ==> IsLine(l)
    ensures forall i :: 0 <= i < |ls| ==> !IsHeader(WrittenLines(ls)[i])
  {
    forall i | 0 <= i < |ls|
      ensures !IsHeader(WrittenLines(ls)[i])
    {
      assert ls[i] in ls;
    }
  }

  lemma {:induction false} BodyIsText(ls: seq<Line>)
    requires forall l :: l in ls ==> IsLine(l)
    ensures Body(WrittenLines(ls)) == Text(ls)
  {
    if ls != [] {
      var n := |ls| - 1;
      BodyIsText(ls[..n]);
      assert WrittenLines(ls)[..n] == WrittenLines(ls[..n]);
      assert ls[n] in ls;
      PieceIsMeant(ls[n]);
    }
  }

  lemma PieceIsMeant(l: Line)
    requires IsLine(l)
    ensures Piece(Written(l)) == Meant(l)
  {
    if l.Barred? {
      assert Written(l)[1..] == l.text;
    }
  }

  // Lines without a key in front of them are passed over
  lemma {:induction false} SkipLines(rec: Record, lines: seq<string>, rest: seq<string>)
    requires forall i :: 0 <= i < |lines| ==> !IsHeader(lines[i])
    ensures Parsed(rec, lines + rest) == Parsed(rec, rest)
  {
    hide Parsed, FieldOf, Body;
    if lines == [] {
      assert lines + rest == rest;
    } else {
      var all := lines + rest;
      assert all[0..] == all && all[0 + 1..] == lines[1..] + rest && all[0] == lines[0];
      ParsedStep(rec, all, 0);
      SkipLines(rec, lines[1..], rest);
    }
  }

  // One section: it replaces its field if its key is known and it has any lines
  lemma ReadOne(rec: Record, s: Section, rest: seq<string>)
    requires IsSection(s) && (rest == [] || IsHeader(rest[0]))
    ensures Parsed(rec, [s.key] + WrittenLines(s.body) + rest) ==
      if FieldOf(s.key).Some? && s.body != [] then Parsed(rec[FieldOf(s.key).value := Some(Text(s.body))], rest)
      else Parsed(rec, rest)
  {
    hide Parsed, FieldOf, Body, WrittenLines, Text;
    var body := WrittenLines(s.body);
    var all := [s.key] + body + rest;
    assert all[0..] == all && all[0] == s.key && all[0 + 1..] == body + rest;
    WrittenIsNoHeader(s.body);
    BodyLengthIs(body + rest, |body|);
    ParsedStep(rec, all, 0);
    if FieldOf(s.key).Some? && s.body != [] {
      assert all[0 + 1..0 + 1 + |body|] == body && all[0 + 1 + |body|..] == rest;
      BodyIsText(s.body);
    } else {
      SkipLines(rec, body, rest);
    }
  }

  lemma LayoutStart(ss: seq<Section>)
    requires forall s :: s in ss ==> IsSection(s)
    ensures Layout(ss) == [] || IsHeader(Layout(ss)[0])
  {
    if ss != [] {
      assert ss[0] in ss;
    }
  }

  lemma {:induction false} LastTextCons(s: Section, ss: seq<Section>, key: string, before: Option<string>)
    ensures LastText([s] + ss, key, before) ==
      LastText(ss, key, if s.key == key && s.body != [] then Some(Text(s.body)) else before)
  {
    if ss == [] {
      assert [s] + ss == [s] && [s][..0] == [];
    } else {
      LastTextCons(s, ss[..|ss| - 1], key, before);
      assert ([s] + ss)[..|ss|] == [s] + ss[..|ss| - 1];
    }
  }

  lemma {:induction false} SectionsMean(rec: Record, ss: seq<Section>)
    requires forall s :: s in ss ==> IsSection(s)
    ensures forall f :: 0 <= f < FIELDS ==> Parsed(rec, Layout(ss))[f] == LastText(ss, FIELD_IDS[f], rec[f])
    decreases |ss|
  {
    hide Parsed, FieldOf, LastText, Text, WrittenLines;
    if ss == [] {
      ParsedNothing(rec);
      NothingLast(rec);
    } else {
      var s, rest := ss[0], ss[1..];
      assert ss == [s] + rest && s in ss;
      LayoutStart(rest);
      ReadOne(rec, s, Layout(rest));
      var rec' := if FieldOf(s.key).Some? && s.body != [] then rec[FieldOf(s.key).value := Some(Text(s.body))] else rec;
      SectionsMean(rec', rest);
      forall f | 0 <= f < FIELDS
        ensures LastText(ss, FIELD_IDS[f], rec[f]) == LastText(rest, FIELD_IDS[f], rec'[f])
      {
        LastTextCons(s, rest, FIELD_IDS[f], rec[f]);
        KeyMeansField(s.key, f);
      }
    }
  }

  lemma NothingLast(rec: Record)
    ensures forall f :: 0 <= f < FIELDS ==> LastText([], FIELD_IDS[f], rec[f]) == rec[f]
  {
  }

  lemma KeyMeansField(key: string, f: nat)
    requires f < FIELDS
    ensures FieldOf(key) == Some(f) <==> key == FIELD_IDS[f]
  {
    hide FieldOf;
    KeysLiterally(key);
  }

  // Every field gets the text of the last section that has its key and any lines; sections under other keys, and lines
  // in front of the first key, count for nothing
  lemma FileMeans(rec: Record, junk: seq<string>, ss: seq<Section>)
    requires (forall i :: 0 <= i < |junk| ==> !IsHeader(junk[i])) && forall s :: s in ss ==> IsSection(s)
    ensures forall f :: 0 <= f < FIELDS ==> Parsed(rec, junk + Layout(ss))[f] == LastText(ss, FIELD_IDS[f], rec[f])
  {
    hide Parsed, LastText, Layout, IsSection, IsHeader;
    SkipLines(rec, junk, Layout(ss));
    SectionsMean(rec, ss);
  }

  /* ---------- the escape ---------- */

  // Each line with a bar in front
  function Escaped(lines: seq<string>): (r: seq<string>)
    ensures |r| == |lines|
  {
    seq(|lines|, i requires 0 <= i < |lines| => "|" + lines[i])
  }

  lemma {:induction false} TextOfBarred(lines: seq<string>)
    ensures Text(seq(|lines|, i requires 0 <= i < |lines| => Barred(lines[i]))) == S.Terminated(lines, "\n")
  {
    var ls := seq(|lines|, i requires 0 <= i < |lines| => Barred(lines[i]));
    if lines != [] {
      var n := |lines| - 1;
      TextOfBarred(lines[..n]);
      assert ls[..n] == seq(n, i requires 0 <= i < n => Barred(lines[..n][i]));
    }
  }

  // The escape: any lines at all, each behind a bar, are read as these lines, each with its newline
  lemma EscapedLinesAreRead(rec: Record, f: nat, lines: seq<string>)
    requires f < FIELDS && lines != []
    ensures Parsed(rec, [FIELD_IDS[f]] + Escaped(lines)) == rec[f := Some(S.Terminated(lines, "\n"))]
  {
    hide Parsed, FieldOf, Text, S.Terminated;
    var ls := seq(|lines|, i requires 0 <= i < |lines| => Barred(lines[i]));
    var s := Section(FIELD_IDS[f], ls);
    assert WrittenLines(ls) == Escaped(lines);
    KeyMeansField(s.key, f);
    KeyIsHeader(f);
    ReadOne(rec, s, []);
    assert [s.key] + Escaped(lines) + [] == [s.key] + Escaped(lines);
    TextOfBarred(lines);
    ParsedNothing(rec[f := Some(S.Terminated(lines, "\n"))]);
  }

  lemma KeyIsHeader(f: nat)
    requires f < FIELDS
    ensures FIELD_IDS[f] != "" && FIELD_IDS[f][0] == ':' && '\n' !in FIELD_IDS[f] && KeepsLine(FIELD_IDS[f])
  {
  }

  // The same from the text of a file: lines, each behind a bar and with a newline, come back as they are
  lemma EscapedTextIsRead(f: nat, lines: seq<string>)
    requires f < FIELDS && lines != [] && forall l :: l in lines ==> '\n' !in l
    ensures ReadBack(FIELD_IDS[f] + "\n" + S.Terminated(Escaped(lines), "\n"))[f] == Some(S.Terminated(lines, "\n"))
  {
    hide Parsed, S.Terminated, LinesSeen, ContentLines, Escaped, Lines;
    var text := S.Terminated(Escaped(lines), "\n");
    KeyIsHeader(f);
    TerminatedEnds(Escaped(lines));
    EscapedLinesAreKept(lines);
    ContentConcat(FIELD_IDS[f], text);
    ContentOfLine(FIELD_IDS[f]);
    NewlineMakesItSafe(FIELD_IDS[f] + "\n" + text);
    EscapedLinesAreRead(EMPTY, f, lines);
  }

  lemma TerminatedEnds(lines: seq<string>)
    requires lines != []
    ensures S.Terminated(lines, "\n") != "" && S.Terminated(lines, "\n")[|S.Terminated(lines, "\n")| - 1] == '\n'
  {
  }

  lemma {:induction false} EscapedLinesAreKept(lines: seq<string>)
    requires forall l :: l in lines ==> '\n' !in l
    ensures ContentLines(S.Terminated(Escaped(lines), "\n")) == Escaped(lines)
  {
    hide ContentLines;
    if lines == [] {
      ContentOfLine("");
    } else {
      var l, rest := "|" + lines[0], lines[1..];
      assert lines[0] in lines;
      EscapedLinesAreKept(rest);
      S.TerminatedCons(Escaped(lines), "\n");
      assert Escaped(lines)[1..] == Escaped(rest) && Escaped(lines)[0] == l;
      ContentConcat(l, S.Terminated(Escaped(rest), "\n"));
      ContentOfLine(l);
      assert Escaped(lines) == [l] + Escaped(rest);
    }
  }
}
