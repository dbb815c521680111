/** The record file of src/handle-record.c: printed by one function, and read back
    through split, filter and reassembly. */
module RecordFile {
  import opened Wrappers
  import S = StrList
  import B = StrBuf

  // The keys of the file, in the order of struct record
  const FIELD_IDS: seq<string> :=
    [":sitename:", ":siteurl:", ":username:", ":password:", ":guard:", ":recovery:", ":memo:", ":comment:"]

  const FIELDS: nat := 8
  const SITENAME: nat := 0
  const PASSWORD: nat := 3
  const COMMENT: nat := 7

  // One optional string per field; None is the NULL pointer
  type Record = r: seq<Option<string>> | |r| == FIELDS witness [None, None, None, None, None, None, None, None]

  const EMPTY: Record := [None, None, None, None, None, None, None, None]

  predicate IsBlank(v: Option<string>) {
    v.None? || B.AllSpace(v.value)
  }

  /* ---------- lines ---------- */

  function Lines(text: string): seq<string> {
    S.Pieces(text, '\n', -1)
  }

  // recfile_line_filter: neither empty nor a comment
  predicate KeepsLine(l: string) {
    l != "" && l[0] != '#'
  }

  // A line that begins a section, or ends one without beginning another
  predicate IsHeader(l: string) {
    l != "" && l[0] == ':'
  }

  // The lines that reassign_record gets to see when the filter works as it should
  function ContentLines(text: string): seq<string> {
    S.Kept(Lines(text), KeepsLine)
  }

  /* ---------- printing ---------- */

  function FieldText(f: nat, v: Option<string>): string
    requires f < FIELDS
  {
    FIELD_IDS[f] + "\n" + (if IsBlank(v) then "\n" else v.value + "\n") + "\n"
  }

  function FieldsFrom(rec: Record, f: nat): string
    requires f <= FIELDS
    decreases FIELDS - f
  {
    if f == FIELDS then "" else FieldText(f, rec[f]) + FieldsFrom(rec, f + 1)
  }

  function Printed(rec: Record, message: string): string {
    FieldsFrom(rec, 0) + (message + "\n")
  }

  function FieldsUpTo(rec: Record, f: nat): string
    requires f <= FIELDS
  {
    if f == 0 then "" else FieldsUpTo(rec, f - 1) + FieldText(f - 1, rec[f - 1])
  }

  lemma {:induction false} FieldsMeet(rec: Record, f: nat)
    requires f <= FIELDS
    ensures FieldsUpTo(rec, f) + FieldsFrom(rec, f) == FieldsFrom(rec, 0)
    ensures FieldsFrom(rec, FIELDS) == ""
  {
    hide FieldText;
    if f == 0 {
      assert "" + FieldsFrom(rec, 0) == FieldsFrom(rec, 0);
    } else {
      FieldsMeet(rec, f - 1);
      Regroup(FieldsUpTo(rec, f - 1), FieldText(f - 1, rec[f - 1]), FieldsFrom(rec, f));
    }
  }

  lemma Regroup(a: string, b: string, c: string)
    ensures a + (b + c) == a + b + c
  {
  }

  // One entry of the file: its key, its value or nothing, and an empty line
  function Entry(key: string, v: Option<string>): string {
    key + "\n" + (if IsBlank(v) then "" else v.value) + "\n\n"
  }

  function Concat(parts: seq<string>): string {
    if parts == [] then "" else parts[0] + Concat(parts[1..])
  }

  // The whole file, key by key
  function Entries(rec: Record, message: string): seq<string> {
    [Entry(":sitename:", rec[0]), Entry(":siteurl:", rec[1]), Entry(":username:", rec[2]), Entry(":password:", rec[3]),
     Entry(":guard:", rec[4]), Entry(":recovery:", rec[5]), Entry(":memo:", rec[6]), Entry(":comment:", rec[7]),
     message + "\n"]
  }

  lemma {:induction false} EntriesFrom(rec: Record, message: string, f: nat)
    requires f <= FIELDS
    ensures Concat(Entries(rec, message)[f..]) == FieldsFrom(rec, f) + (message + "\n")
    decreases FIELDS - f
  {
    hide FieldText, Entry;
    var es := Entries(rec, message);
    if f == FIELDS {
      assert es[8..] == [message + "\n"] && Concat([]) == "" && [message + "\n"][1..] == [];
      assert message + "\n" + "" == "" + (message + "\n");
    } else {
      EntriesFrom(rec, message, f + 1);
      EntryIsFieldText(rec, message, f);
      assert es[f..][1..] == es[f + 1..];
      Regroup(FieldText(f, rec[f]), FieldsFrom(rec, f + 1), message + "\n");
    }
  }

  lemma EntryIsFieldText(rec: Record, message: string, f: nat)
    requires f < FIELDS
    ensures Entries(rec, message)[f] == FieldText(f, rec[f])
  {
    hide Entry, FieldText;
    EntryText(f, rec[f]);
    assert Entries(rec, message)[f] == Entry(FIELD_IDS[f], rec[f]);
  }

  lemma EntryText(f: nat, v: Option<string>)
    requires f < FIELDS
    ensures Entry(FIELD_IDS[f], v) == FieldText(f, v)
  {
    hide IsBlank;
    AbsentIsBlank(v);
  }

  method FormatRecfileContent(rec: Record, commonMessage: string) returns (content: string)
    ensures content == Printed(rec, commonMessage) == Concat(Entries(rec, commonMessage))
  {
    hide FieldsFrom, FieldText, Entries, Concat;
    EntriesFrom(rec, commonMessage, 0);
    assert Entries(rec, commonMessage)[0..] == Entries(rec, commonMessage);
    var message := new B.Buffer();
    for f := 0 to FIELDS
      invariant message.Valid() && fresh(message) && fresh(message.buf)
      invariant message.Contents() == FieldsUpTo(rec, f)
    {
      PutField(message, f, rec[f]);
    }
    FieldsMeet(rec, FIELDS);
    message.Puts(commonMessage);
    content := message.Contents();
    assert content == FieldsUpTo(rec, FIELDS) + (commonMessage + "\n");
    assert FieldsUpTo(rec, FIELDS) + "" == FieldsUpTo(rec, FIELDS);
  }

  // One turn of the printing loop
  method PutField(message: B.Buffer, f: nat, val: Option<string>)
    requires message.Valid() && f < FIELDS
    modifies message, message.buf
    ensures message.Valid() && (message.buf == old(message.buf) || fresh(message.buf))
    ensures message.Contents() == old(message.Contents()) + FieldText(f, val)
  {
    hide IsBlank, FieldText;
    ghost var before := message.Contents();
    message.Puts(FIELD_IDS[f]);
    ghost var key := message.Contents();
    var blank := IsBlankField(val);
    AbsentIsBlank(val);
    if !blank {
      message.Puts(val.value);
    } else {
      message.PutChar('\n');
    }
    message.PutChar('\n');
    FieldTextAfter(before, f, val);
  }

  lemma AbsentIsBlank(v: Option<string>)
    ensures !IsBlank(v) ==> v.Some?
  {
  }

  lemma FieldTextAfter(before: string, f: nat, val: Option<string>)
    requires f < FIELDS
    ensures var key := before + FIELD_IDS[f] + "\n";
      before + FieldText(f, val) == (if IsBlank(val) then key + "\n" else key + val.value + "\n") + "\n"
  {
    hide IsBlank;
    AbsentIsBlank(val);
  }

  /* ---------- reading ---------- */

  function FieldOf(l: string): (f: Option<nat>)
    ensures f.Some? ==> f.value < FIELDS && FIELD_IDS[f.value] == l
    ensures f.None? ==> l !in FIELD_IDS
  {
    FieldFrom(l, 0)
  }

  function FieldFrom(l: string, f: nat): (r: Option<nat>)
    requires f <= FIELDS && forall g :: 0 <= g < f ==> FIELD_IDS[g] != l
    ensures r.Some? ==> r.value < FIELDS && FIELD_IDS[r.value] == l
    ensures r.None? ==> l !in FIELD_IDS
    decreases FIELDS - f
  {
    if f == FIELDS then None else if FIELD_IDS[f] == l then Some(f) else FieldFrom(l, f + 1)
  }

  // Which field each key means
  lemma KeysLiterally(line: string)
    ensures FieldOf(line).None? || FieldOf(line).value < 8
    ensures FieldOf(line) == Some(0) <==> line == ":sitename:"
    ensures FieldOf(line) == Some(1) <==> line == ":siteurl:"
    ensures FieldOf(line) == Some(2) <==> line == ":username:"
    ensures FieldOf(line) == Some(3) <==> line == ":password:"
    ensures FieldOf(line) == Some(4) <==> line == ":guard:"
    ensures FieldOf(line) == Some(5) <==> line == ":recovery:"
    ensures FieldOf(line) == Some(6) <==> line == ":memo:"
    ensures FieldOf(line) == Some(7) <==> line == ":comment:"
  {
    if FieldOf(line).Some? {
      var f := FieldOf(line).value;
      forall g: nat | g < FIELDS && g != f
        ensures FIELD_IDS[g] != line
      {
        IdsDistinct(if f < g then f else g, if f < g then g else f);
      }
    }
  }

  lemma IdsDistinct(f: nat, g: nat)
    requires f < g < FIELDS
    ensures FIELD_IDS[f] != FIELD_IDS[g]
  {
    assert FIELD_IDS[0][1] == 's' && FIELD_IDS[1][1] == 's' && FIELD_IDS[2][1] == 'u' && FIELD_IDS[3][1] == 'p';
    assert FIELD_IDS[4][1] == 'g' && FIELD_IDS[5][1] == 'r' && FIELD_IDS[6][1] == 'm' && FIELD_IDS[7][1] == 'c';
    assert |FIELD_IDS[0]| == 10 && |FIELD_IDS[1]| == 9;
  }

  // How many lines stand before the next header
  function BodyLength(lines: seq<string>): (n: nat)
    ensures n <= |lines|
    ensures forall k :: 0 <= k < n ==> !IsHeader(lines[k])
    ensures n < |lines| ==> IsHeader(lines[n])
  {
    if lines == [] || IsHeader(lines[0]) then 0 else 1 + BodyLength(lines[1..])
  }

  // What one line adds to its field: a line marked with | is taken literally and keeps its newline
  function Piece(l: string): string {
    if l != "" && l[0] == '|' then l[1..] + "\n" else l
  }

  function Body(lines: seq<string>): string {
    if lines == [] then "" else Body(lines[..|lines| - 1]) + Piece(lines[|lines| - 1])
  }

  // The record that the lines describe, when the fields start out as in rec
  function Parsed(rec: Record, lines: seq<string>): Record
    decreases |lines|
  {
    if lines == [] then rec
    else
      var n := BodyLength(lines[1..]);
      var field := if IsHeader(lines[0]) then FieldOf(lines[0]) else None;
      if field.None? || n == 0 then Parsed(rec, lines[1..])
      else Parsed(rec[field.value := Some(Body(lines[1..][..n]))], lines[1..][n..])
  }

  lemma {:induction false} BodyLengthIs(lines: seq<string>, n: nat)
    requires n <= |lines| && forall k :: 0 <= k < n ==> !IsHeader(lines[k])
    requires n < |lines| ==> IsHeader(lines[n])
    ensures BodyLength(lines) == n
  {
    if n > 0 {
      BodyLengthIs(lines[1..], n - 1);
    }
  }

  // One turn of the reading loop, at line i
  lemma ParsedStep(rec: Record, lines: seq<string>, i: nat)
    requires i < |lines|
    ensures !IsHeader(lines[i]) || FieldOf(lines[i]).None? || BodyLength(lines[i + 1..]) == 0 ==>
      Parsed(rec, lines[i..]) == Parsed(rec, lines[i + 1..])
    ensures var n := BodyLength(lines[i + 1..]);
      (IsHeader(lines[i]) && FieldOf(lines[i]).Some? && n > 0 ==>
        Parsed(rec, lines[i..]) ==
          Parsed(rec[FieldOf(lines[i]).value := Some(Body(lines[i + 1..i + 1 + n]))], lines[i + 1 + n..]))
  {
    hide Body, FieldOf;
    var l := lines[i..];
    assert l[0] == lines[i] && l[1..] == lines[i + 1..];
    var n := BodyLength(l[1..]);
    assert l[1..][..n] == lines[i + 1..i + 1 + n] && l[1..][n..] == lines[i + 1 + n..];
  }

  // The whole result, when the loop stands at line i
  ghost predicate Reading(whole: Record, rec: Record, lines: seq<string>, i: nat) {
    i <= |lines| && whole == Parsed(rec, lines[i..])
  }

  lemma ReadingTurn(whole: Record, rec: Record, lines: seq<string>, i: nat)
    requires i < |lines| && Reading(whole, rec, lines, i)
    ensures var n := BodyLength(lines[i + 1..]);
      if !IsHeader(lines[i]) || FieldOf(lines[i]).None? || n == 0 then Reading(whole, rec, lines, i + 1)
      else Reading(whole, rec[FieldOf(lines[i]).value := Some(Body(lines[i + 1..i + 1 + n]))], lines, i + 1 + n)
  {
    hide Parsed, Body, FieldOf, BodyLength;
    ParsedStep(rec, lines, i);
  }

  lemma ReadingStarts(lines: seq<string>)
    ensures Reading(Parsed(EMPTY, lines), EMPTY, lines, 0)
  {
    assert lines[0..] == lines;
  }

  lemma ReadingEnds(whole: Record, rec: Record, lines: seq<string>)
    requires Reading(whole, rec, lines, |lines|)
    ensures whole == rec
  {
  }

  method ReassignRecord(rec: array<Option<string>>, lines: S.List)
    requires rec.Length == FIELDS && lines.Valid()
    modifies rec
    ensures rec[..] == Parsed(EMPTY, S.Strings(lines.Contents()))
  {
    hide Parsed, Body, BodyLength, FieldOf, S.Strings, Reading, B.Buffer.Valid, B.Buffer.Contents;
    forall f | 0 <= f < FIELDS {
      rec[f] := None;
    }
    var field := new B.Buffer();
    ghost var all := S.Strings(lines.Contents());
    var i := 0;
    ghost var whole := Parsed(EMPTY, all);
    assert rec[..] == EMPTY;
    ReadingStarts(all);
    while i < lines.size
      invariant i <= lines.size
      invariant field.Valid() && fresh(field) && fresh(field.buf) && field.Contents() == ""
      invariant Reading(whole, rec[..], all, i)
    {
      ReadingTurn(whole, rec[..], all, i);
      var line := lines.elvec[i].str;
      if !IsHeader(line) {
        i := i + 1;
        continue;
      }
      var fmap := FindField(line);
      if fmap.None? {
        i := i + 1;
        continue;
      }
      var ii, value := TakeBody(field, lines, i + 1);
      if ii == i + 1 {
        i := i + 1;
        continue;
      }
      ghost var before := rec[..];
      rec[fmap.value] := Some(value);
      assert rec[..] == before[fmap.value := Some(Body(all[i + 1..ii]))];
      i := ii;
    }
    ReadingEnds(whole, rec[..], all);
  }

  lemma ParsedNothing(rec: Record)
    ensures Parsed(rec, []) == rec
  {
  }

  // The search of the key table
  method FindField(line: string) returns (f: Option<nat>)
    ensures f == FieldOf(line)
    ensures f.None? || f.value < 8
    ensures f == Some(0) <==> line == ":sitename:"
    ensures f == Some(1) <==> line == ":siteurl:"
    ensures f == Some(2) <==> line == ":username:"
    ensures f == Some(3) <==> line == ":password:"
    ensures f == Some(4) <==> line == ":guard:"
    ensures f == Some(5) <==> line == ":recovery:"
    ensures f == Some(6) <==> line == ":memo:"
    ensures f == Some(7) <==> line == ":comment:"
  {
    KeysLiterally(line);
    hide FieldFrom, FieldOf;
    var fmap := 0;
    while fmap < FIELDS && line != FIELD_IDS[fmap]
      invariant fmap <= FIELDS && forall g :: 0 <= g < fmap ==> FIELD_IDS[g] != line
      invariant FieldOf(line) == FieldFrom(line, fmap)
    {
      fmap := fmap + 1;
    }
    f := if fmap < FIELDS then Some(fmap) else None;
  }

  // The lines of one section, detached from the buffer unless there are none
  method TakeBody(field: B.Buffer, lines: S.List, start: nat) returns (ii: nat, value: string)
    requires field.Valid() && field.Contents() == "" && lines.Valid() && start <= lines.size
    modifies field, field.buf
    ensures field.Valid() && (field.buf == old(field.buf) || fresh(field.buf)) && field.Contents() == ""
    ensures ii == start + BodyLength(S.Strings(lines.Contents())[start..]) <= lines.size
    ensures value == Body(S.Strings(lines.Contents())[start..ii])
  {
    ii := CollectBody(field, lines, start);
    if ii > start {
      value := field.Detach();
    } else {
      value := "";
    }
  }

  // The inner loop: gather the lines up to the next header
  method CollectBody(field: B.Buffer, lines: S.List, start: nat) returns (ii: nat)
    requires field.Valid() && field.Contents() == "" && lines.Valid() && start <= lines.size
    modifies field, field.buf
    ensures field.Valid() && (field.buf == old(field.buf) || fresh(field.buf))
    ensures ii == start + BodyLength(S.Strings(lines.Contents())[start..]) <= lines.size
    ensures field.Contents() == Body(S.Strings(lines.Contents())[start..ii])
    ensures ii == start ==> field.Contents() == ""
  {
    hide BodyLength, Body, Piece;
    ghost var all := S.Strings(lines.Contents());
    ii := start;
    BodyOfNone();
    assert all[start..ii] == [];
    while ii < lines.size && !IsHeader(lines.elvec[ii].str)
      invariant start <= ii <= lines.size
      invariant field.Valid() && (field.buf == old(field.buf) || fresh(field.buf))
      invariant field.Contents() == Body(all[start..ii])
      invariant forall k :: start <= k < ii ==> !IsHeader(all[k])
    {
      PutPiece(field, lines.elvec[ii].str);
      assert all[start..ii + 1] == all[start..ii] + [all[ii]];
      BodySnoc(all[start..ii], all[ii]);
      ii := ii + 1;
    }
    BodyLengthIs(all[start..], ii - start);
  }

  method PutPiece(field: B.Buffer, l: string)
    requires field.Valid()
    modifies field, field.buf
    ensures field.Valid() && (field.buf == old(field.buf) || fresh(field.buf))
    ensures field.Contents() == old(field.Contents()) + Piece(l)
  {
    ghost var before := field.Contents();
    if l != "" && l[0] == '|' {
      field.Puts(l[1..]);
      assert field.Contents() == before + (l[1..] + "\n");
    } else {
      field.Write(l);
    }
  }

  lemma BodyOfNone()
    ensures Body([]) == ""
  {
  }

  lemma BodySnoc(lines: seq<string>, l: string)
    ensures Body(lines + [l]) == Body(lines) + Piece(l)
  {
    assert (lines + [l])[..|lines|] == lines;
  }

  /* ---------- the whole file ---------- */

  // A line that is neither empty, a comment nor a header (recfile_line_filter_all)
  predicate KeepsField(l: string) {
    KeepsLine(l) && l[0] != ':'
  }

  // The lines that reassign_record gets to see
  function LinesSeen(text: string): seq<string> {
    S.Filtered(Lines(text), KeepsLine)
  }

  function ReadBack(text: string): Record {
    Parsed(EMPTY, LinesSeen(text))
  }

  predicate IsIncomplete(rec: Record) {
    IsBlank(rec[SITENAME]) || IsBlank(rec[PASSWORD])
  }

  // Undefined: the list of lines is freed before it was made
  datatype ReadResult = Cancelled | Missing | Complete | Undefined

  // The outcome, if a line that strlist_filter has freed still holds its bytes; ReadIsDefined says when there is none
  function Outcome(text: string): ReadResult {
    if text == "" then Undefined
    else if LinesSeen(text) == [] then Cancelled
    else if !IsIncomplete(ReadBack(text)) then Complete
    else if S.Kept(LinesSeen(text), KeepsField) == [] then Cancelled
    else Missing
  }

  // When a file is accepted: something is in it, and the fields of ":sitename:" and ":password:" are not blank
  lemma OutcomeMeans(text: string)
    ensures Outcome(text) == Complete <==>
      text != "" && LinesSeen(text) != [] && !IsBlank(ReadBack(text)[0]) && !IsBlank(ReadBack(text)[3])
    ensures Outcome(text) == Missing ==> IsBlank(ReadBack(text)[0]) || IsBlank(ReadBack(text)[3])
    ensures Outcome(text) == Undefined <==> text == ""
    ensures text != "" && S.Kept(LinesSeen(text), KeepsField) != [] ==> Outcome(text) != Cancelled
    ensures text != "" && LinesSeen(text) == [] ==> Outcome(text) == Cancelled
  {
    hide S.Kept, LinesSeen, ReadBack, IsBlank;
    S.Snoc([], "", KeepsField);
  }

  function RecfileLineFilter(el: S.Elem): bool {
    KeepsLine(el.str)
  }

  function RecfileLineFilterAll(el: S.Elem): bool {
    KeepsField(el.str)
  }

  // Filtering list elements by their strings is filtering the strings
  lemma {:induction false} FilterStrings(a: seq<S.Elem>, pass: S.Elem -> bool, passes: string -> bool)
    requires forall el :: pass(el) == passes(el.str)
    ensures S.Strings(S.Kept(a, pass)) == S.Kept(S.Strings(a), passes)
    ensures S.Rejected(a, pass) == S.Rejected(S.Strings(a), passes)
  {
    hide S.Kept, S.Rejected;
    if a == [] {
      S.Snoc([], S.Elem("", 0), pass);
      S.Snoc([], "", passes);
    } else {
      var b, x := a[..|a| - 1], a[|a| - 1];
      FilterStrings(b, pass, passes);
      assert a == b + [x] && S.Strings(a) == S.Strings(b) + [x.str];
      S.Snoc(b, x, pass);
      S.Snoc(S.Strings(b), x.str, passes);
      assert S.Strings(S.Kept(b, pass) + [x]) == S.Strings(S.Kept(b, pass)) + [x.str];
    }
  }

  lemma StaleFromStrings(a: seq<S.Elem>, pass: S.Elem -> bool, passes: string -> bool)
    requires S.Rejected(a, pass) == S.Rejected(S.Strings(a), passes)
    ensures S.StaleFrom(a, pass) == S.StaleFrom(S.Strings(a), passes)
  {
    hide S.Rejected;
  }

  lemma FilteredStrings(a: seq<S.Elem>, pass: S.Elem -> bool, passes: string -> bool)
    requires forall el :: pass(el) == passes(el.str)
    ensures S.Strings(S.Filtered(a, pass)) == S.Filtered(S.Strings(a), passes)
  {
    hide S.Kept, S.Rejected, S.StaleFrom;
    FilterStrings(a, pass, passes);
    assert S.StaleFrom(a, pass) == S.StaleFrom(S.Strings(a), passes) by {
      StaleFromStrings(a, pass, passes);
    }
    var r, r' := S.Filtered(a, pass), S.Filtered(S.Strings(a), passes);
    forall q | 0 <= q < |r|
      ensures r[q].str == r'[q]
    {
      assert S.Strings(S.Kept(a, pass))[q] == S.Kept(a, pass)[q].str;
    }
  }

  method ReadRecordFile(rec: array<Option<string>>, text: string) returns (res: ReadResult)
    requires rec.Length == FIELDS
    modifies rec
    ensures res == Outcome(text)
    ensures res.Complete? ==> rec[..] == ReadBack(text)
  {
    hide Parsed, S.Kept, S.Rejected, S.Filtered, S.Pieces, IsBlank, KeepsLine, KeepsField, S.Strings;
    if |text| == 0 {
      // the jump skips the list, which is then destroyed
      return Undefined;
    }
    var lines := new S.List(true);
    var count := lines.Split(text, '\n', -1);
    S.PieceCount(text, '\n', -1);
    assert S.Strings(lines.Contents()) == Lines(text);
    FilterLines(lines, RecfileLineFilter, KeepsLine);
    if lines.size == 0 {
      return Cancelled;
    }
    ReassignRecord(rec, lines);
    var noName := IsBlankField(rec[SITENAME]);
    var noPassword := IsBlankField(rec[PASSWORD]);
    if noName || noPassword {
      FilterLines(lines, RecfileLineFilterAll, KeepsField);
      // the second filter may leave wrong lines behind, but never a wrong number of them
      if lines.size == 0 {
        return Cancelled;
      } else {
        return Missing;
      }
    }
    return Complete;
  }

  method FilterLines(lines: S.List, compar: S.Elem -> bool, ghost passes: string -> bool)
    requires lines.Valid() && forall el :: compar(el) == passes(el.str)
    modifies lines`size, lines.elvec
    ensures lines.Valid()
    ensures S.Strings(lines.Contents()) == S.Filtered(S.Strings(old(lines.Contents())), passes)
  {
    hide S.Filtered;
    lines.Filter(compar);
    FilteredStrings(old(lines.Contents()), compar, passes);
  }

  method IsBlankField(v: Option<string>) returns (r: bool)
    ensures r == IsBlank(v)
  {
    if v.None? {
      return true;
    }
    r := B.IsBlankStr(v.value);
  }

  /* ---------- what survives the filter ---------- */

  predicate EndsInNewline(text: string) {
    text != "" && text[|text| - 1] == '\n'
  }

  lemma ContentConcat(x: string, y: string)
    ensures ContentLines(x + "\n" + y) == ContentLines(x) + ContentLines(y)
  {
    hide S.Kept, S.Pieces;
    S.PiecesOfConcat(x, '\n', y);
    S.KeptConcat(Lines(x), Lines(y), KeepsLine);
  }

  lemma ContentOfLine(l: string)
    requires '\n' !in l
    ensures ContentLines(l) == if KeepsLine(l) then [l] else []
  {
    hide S.Pieces;
    S.OnePiece(l, '\n');
    assert S.Kept([l][..0], KeepsLine) == [];
  }

  // A newline at the end of the file makes the filter safe
  lemma NewlineMakesItSafe(text: string)
    requires EndsInNewline(text)
    ensures LinesSeen(text) == ContentLines(text)
  {
    hide S.Kept, S.Rejected, S.Pieces, S.Filtered;
    var x := text[..|text| - 1];
    assert text == x + ['\n'] + "";
    S.PiecesOfConcat(x, '\n', "");
    S.OnePiece("", '\n');
    assert Lines(text)[|Lines(text)| - 1] == "";
    S.SafeFilter(Lines(text), KeepsLine);
  }

  /* ---------- when no freed line is read ---------- */

  // strlist_split allocates every line on its own; the ext field tells equal lines apart here
  function Allocated(lines: seq<string>): (r: seq<S.Elem>)
    ensures |r| == |lines|
  {
    seq(|lines|, i requires 0 <= i < |lines| => S.Elem(lines[i], i))
  }

  // After the filter no line is left that has been freed, and none that will be freed twice
  ghost predicate NothingFreedIsLeft(lines: seq<string>, passes: string -> bool) {
    S.SoundAfterFilter(Allocated(lines), (el: S.Elem) => passes(el.str))
  }

  // At most one line is dropped, or the last one is
  lemma FreedLinesExactly(lines: seq<string>, passes: string -> bool)
    requires lines != []
    ensures NothingFreedIsLeft(lines, passes) <==>
      |S.Rejected(lines, passes)| <= 1 || !passes(lines[|lines| - 1])
  {
    hide S.Rejected, S.SoundAfterFilter;
    var pass := (el: S.Elem) => passes(el.str);
    assert S.Strings(Allocated(lines)) == lines;
    FilterStrings(Allocated(lines), pass, passes);
    S.FilterSoundExactly(Allocated(lines), pass);
  }

  // The second filter runs when a required field is missing
  ghost predicate ReadIsDefined(text: string) {
    && text != ""
    && NothingFreedIsLeft(Lines(text), KeepsLine)
    && (LinesSeen(text) != [] && IsIncomplete(ReadBack(text)) ==> NothingFreedIsLeft(LinesSeen(text), KeepsField))
  }

  // What follows the last newline
  function LastLine(text: string): (l: string)
    ensures '\n' !in l && |l| <= |text| && text[|text| - |l|..] == l
    ensures |l| < |text| ==> text[|text| - |l| - 1] == '\n'
  {
    if text == "" || text[|text| - 1] == '\n' then ""
    else
      var l := LastLine(text[..|text| - 1]) + [text[|text| - 1]];
      assert text == text[..|text| - 1] + [text[|text| - 1]];
      l
  }

  lemma LastOfLines(text: string)
    ensures Lines(text) != [] && Lines(text)[|Lines(text)| - 1] == LastLine(text)
  {
    hide S.Pieces, LastLine;
    var l := LastLine(text);
    S.OnePiece(l, '\n');
    if |l| < |text| {
      var x := text[..|text| - |l| - 1];
      assert text == x + ['\n'] + l;
      S.PiecesOfConcat(x, '\n', l);
    } else {
      assert text == l;
    }
  }

  // The first filter leaves nothing freed exactly when it drops at most one line, or the text ends in a newline or in
  // a comment
  lemma SafeTextExactly(text: string)
    ensures NothingFreedIsLeft(Lines(text), KeepsLine) <==> SafeText(text)
  {
    hide S.Rejected, S.Pieces, LastLine, NothingFreedIsLeft;
    LastOfLines(text);
    FreedLinesExactly(Lines(text), KeepsLine);
  }

  // The reader sees the content lines exactly when the lines past the early stop equal those due there
  lemma SeenExactly(text: string)
    ensures var lines := Lines(text);
      LinesSeen(text) == ContentLines(text) <==>
        forall q: nat :: S.StaleFrom(lines, KeepsLine) <= q < |S.Kept(lines, KeepsLine)| ==>
          lines[q] == lines[q + |S.Rejected(lines, KeepsLine)|]
  {
    S.FilterExact(Lines(text), KeepsLine);
  }

  // The first filter drops at most one line, or the last one
  ghost predicate SafeText(text: string) {
    |S.Rejected(Lines(text), KeepsLine)| <= 1 || LastLine(text) == "" || LastLine(text)[0] == '#'
  }

  // The same for the second filter, which sees what the first one has left when a required field is missing
  ghost predicate SafeLines(lines: seq<string>) {
    lines == [] || !IsIncomplete(Parsed(EMPTY, lines))
    || |S.Rejected(lines, KeepsField)| <= 1 || !KeepsField(lines[|lines| - 1])
  }

  // For every text, exactly when its reading touches no freed line
  lemma DefinedExactly(text: string)
    ensures ReadIsDefined(text) <==> text != "" && SafeText(text) && SafeLines(ContentLines(text))
  {
    hide S.Rejected, S.Pieces, NothingFreedIsLeft, Parsed, S.Kept, S.Filtered, LastLine;
    SafeTextExactly(text);
    if SafeText(text) {
      SafeTextIsSeen(text);
      if ContentLines(text) != [] {
        FreedLinesExactly(ContentLines(text), KeepsField);
      }
    }
  }

  lemma SafeTextIsSeen(text: string)
    requires SafeText(text)
    ensures LinesSeen(text) == ContentLines(text)
  {
    hide Lines, LastLine, S.Rejected, S.Kept, S.Filtered;
    LastOfLines(text);
    SafeLast(Lines(text), LastLine(text));
  }

  lemma SafeLast(lines: seq<string>, last: string)
    requires lines != [] && lines[|lines| - 1] == last
    requires |S.Rejected(lines, KeepsLine)| <= 1 || last == "" || last[0] == '#'
    ensures S.Filtered(lines, KeepsLine) == S.Kept(lines, KeepsLine)
  {
    hide S.Rejected, S.Kept, S.Filtered;
    S.SafeFilter(lines, KeepsLine);
  }

  lemma LastAfterNewline(text: string)
    requires EndsInNewline(text)
    ensures LastLine(text) == ""
  {
  }

  // Without it two comments push the value out, and the site is read from a comment that has been freed
  lemma MissingNewlineCorrupts()
    ensures !ReadIsDefined("#\n#\n:sitename:\na")
    ensures LinesSeen("#\n#\n:sitename:\na") == [":sitename:", "#"] && !KeepsLine("#")
    ensures ReadBack("#\n#\n:sitename:\na")[SITENAME] == Some("#")
    ensures ReadBack(":sitename:\na")[SITENAME] == Some("a")
  {
    hide S.Kept, S.Rejected, S.Filtered, S.Pieces, Parsed, NothingFreedIsLeft;
    FreedLinesExactly(["#", "#", ":sitename:", "a"], KeepsLine);
    LinesOfFour();
    CommentsPushOut(":sitename:", "a");
    TwoLines("#");
    TwoLines("a");
  }

  lemma CommentsPushOut(k: string, v: string)
    requires KeepsLine(k) && KeepsLine(v)
    ensures !S.SafeToFilter(["#", "#", k, v], KeepsLine)
    ensures S.Filtered(["#", "#", k, v], KeepsLine) == [k, "#"]
    ensures S.Filtered([k, v], KeepsLine) == [k, v]
  {
    hide S.Kept, S.Rejected, S.Filtered;
    S.RejectedPushOut("#", "#", k, v, KeepsLine);
    assert [] + [k] == [k] && [k] + [v] == [k, v];
    S.Snoc([], k, KeepsLine);
    S.Snoc([k], v, KeepsLine);
    S.SafeFilter([k, v], KeepsLine);
  }

  lemma LinesOfFour()
    ensures Lines("#\n#\n:sitename:\na") == ["#", "#", ":sitename:", "a"]
    ensures Lines(":sitename:\na") == [":sitename:", "a"]
  {
    hide S.Pieces;
    var id: string := ":sitename:";
    assert id + ['\n'] + "a" == ":sitename:\na";
    assert "#" + ['\n'] + ":sitename:\na" == "#\n:sitename:\na";
    assert "#" + ['\n'] + "#\n:sitename:\na" == "#\n#\n:sitename:\na";
    S.PiecesOfConcat("#", '\n', "#\n:sitename:\na");
    S.PiecesOfConcat("#", '\n', ":sitename:\na");
    S.PiecesOfConcat(id, '\n', "a");
    S.OnePiece("#", '\n');
    S.OnePiece(id, '\n');
    S.OnePiece("a", '\n');
  }

  lemma TwoLines(v: string)
    requires v != "" && v[0] != ':' && v[0] != '|'
    ensures Parsed(EMPTY, [":sitename:", v])[SITENAME] == Some(v)
  {
    var l := [":sitename:", v];
    assert l[1..] == [v] && BodyLength([v]) == 1 && [v][..1] == [v] && [v][1..] == [];
    assert FieldOf(":sitename:") == Some(0);
    assert Body([v]) == v by {
      BodySnoc([], v);
    }
  }
}
