/**
 * The bookmark store: a dict from bookmark name to record (bm_store), mirrored by
 * the bookmark file, one tab-separated line per record. The file is modelled as the
 * list of lines `readlines()` returns, each line keeping its '\n'.
 */
module Bookmarks {
  import opened Common
  import opened Text

  /**
   * The props dict of one bookmark: playlist directory, player id, 0-based playlist
   * position, file name, time string and when it was added (a float timestamp in
   * the bot, an integer here).
   */
  datatype Record = Record(path: string, pid: int, pos: int, file: string, time: string, add: int)

  /** The ValueError bm_unformat raises: the tuple unpacking or an int() conversion. */
  datatype ParseError = FieldCount(count: nat) | NotAnInteger(field: string)

  // ---------------------------------------------------------------------------
  // Record codec

  /** bm_format: the name, then '\t' + str(prop) for path, pid, pos, file, time, add. */
  function Format(name: string, r: Record): string {
    name + "\t" + Props(r)
  }

  /** The props part of a formatted line (everything after the name's tab). */
  function Props(r: Record): string {
    r.path + "\t" + IntStr(r.pid) + "\t" + IntStr(r.pos) + "\t" + r.file + "\t" + r.time + "\t" + IntStr(r.add)
  }

  /**
   * bm_unformat: strip the line, split it on tabs into exactly seven fields, and
   * convert pid, pos and add (in that order).
   */
  function Unformat(line: string): Result<(string, Record), ParseError> {
    Unpack(Split(Strip(line), '\t'))
  }

  /** The tuple unpacking and int() conversions of bm_unformat, on the split fields. */
  function Unpack(f: seq<string>): Result<(string, Record), ParseError> {
    if |f| != 7 then Err(FieldCount(|f|))
    else
      var pid, pos, add := ParseInt(f[2]), ParseInt(f[3]), ParseInt(f[6]);
      if pid.None? then Err(NotAnInteger(f[2]))
      else if pos.None? then Err(NotAnInteger(f[3]))
      else if add.None? then Err(NotAnInteger(f[6]))
      else Ok((f[0], Record(f[1], pid.value, pos.value, f[4], f[5], add.value)))
  }

  /** A text field of a line: it may hold neither the separator nor a line break. */
  predicate Plain(s: string) {
    '\t' !in s && '\n' !in s
  }

  /**
   * What a bookmark must satisfy for its line to read back: plain text fields and a
   * name that is non-empty and does not start with whitespace (strip() would eat it).
   */
  predicate Storable(name: string, r: Record) {
    && |name| > 0 && !IsSpace(name[0])
    && Plain(name) && Plain(r.path) && Plain(r.file) && Plain(r.time)
  }

  lemma IntStrPlain(x: int)
    ensures Plain(IntStr(x))
  {
    var s := IntStr(x);
    assert forall i :: 0 <= i < |s| ==> s[i] != '\t' && s[i] != '\n' by {
      forall i | 0 <= i < |s| ensures s[i] != '\t' && s[i] != '\n' {
        assert i > 0 ==> IsDigit(s[i]);
      }
    }
  }

  /** Splitting the props part on tabs gives back its six fields. */
  lemma SplitProps(r: Record)
    requires Plain(r.path) && Plain(r.file) && Plain(r.time)
    ensures Split(Props(r), '\t') == [r.path, IntStr(r.pid), IntStr(r.pos), r.file, r.time, IntStr(r.add)]
  {
    IntStrPlain(r.pid);
    IntStrPlain(r.pos);
    IntStrPlain(r.add);
    var a2 := r.path;
    var a3 := a2 + "\t" + IntStr(r.pid);
    var a4 := a3 + "\t" + IntStr(r.pos);
    var a5 := a4 + "\t" + r.file;
    var a6 := a5 + "\t" + r.time;
    var a7 := a6 + "\t" + IntStr(r.add);
    assert Props(r) == a7;
    SplitNoSeparator(r.path, '\t');
    SplitAddField(a2, IntStr(r.pid), [r.path]);
    SplitAddField(a3, IntStr(r.pos), [r.path, IntStr(r.pid)]);
    SplitAddField(a4, r.file, [r.path, IntStr(r.pid), IntStr(r.pos)]);
    SplitAddField(a5, r.time, [r.path, IntStr(r.pid), IntStr(r.pos), r.file]);
    SplitAddField(a6, IntStr(r.add), [r.path, IntStr(r.pid), IntStr(r.pos), r.file, r.time]);
  }

  /** One more tab-separated field adds one more element to the split. */
  lemma SplitAddField(a: string, f: string, fields: seq<string>)
    requires Split(a, '\t') == fields && '\t' !in f
    ensures Split(a + "\t" + f, '\t') == fields + [f]
  {
    SplitNoSeparator(f, '\t');
    SplitConcat(a, f, '\t');
  }

  /** Splitting a formatted line on tabs gives back its seven fields. */
  lemma SplitFormat(name: string, r: Record)
    requires Plain(name) && Plain(r.path) && Plain(r.file) && Plain(r.time)
    ensures Split(Format(name, r), '\t') ==
      [name, r.path, IntStr(r.pid), IntStr(r.pos), r.file, r.time, IntStr(r.add)]
  {
    SplitProps(r);
    SplitNoSeparator(name, '\t');
    SplitConcat(name, Props(r), '\t');
  }

  /** A formatted line is its own strip(), with or without its newline. */
  lemma StripFormat(name: string, r: Record)
    requires |name| > 0 && !IsSpace(name[0])
    ensures Strip(Format(name, r)) == Format(name, r)
    ensures Strip(Format(name, r) + "\n") == Format(name, r)
  {
    var f := Format(name, r);
    assert f[0] == name[0];
    assert f[|f| - 1] == IntStr(r.add)[|IntStr(r.add)| - 1];
    StripNoop(f);
    StripNewline(f);
  }

  /** The seven fields of a record convert back to it. */
  lemma UnpackFields(name: string, r: Record)
    ensures Unpack([name, r.path, IntStr(r.pid), IntStr(r.pos), r.file, r.time, IntStr(r.add)]) == Ok((name, r))
  {
    ParseIntStr(r.pid);
    ParseIntStr(r.pos);
    ParseIntStr(r.add);
  }

  /** bm_unformat(bm_format(name, props)) == (name, props) for a storable bookmark. */
  lemma UnformatFormat(name: string, r: Record)
    requires Storable(name, r)
    ensures Unformat(Format(name, r)) == Ok((name, r))
    ensures Unformat(Format(name, r) + "\n") == Ok((name, r))
  {
    var f := Format(name, r);
    StripFormat(name, r);
    SplitFormat(name, r);
    UnpackFields(name, r);
    assert Unformat(f) == Unpack(Split(f, '\t'));
    assert Unformat(f + "\n") == Unpack(Split(f, '\t'));
  }

  /**
   * A bookmark with an empty name (what "bookmark set" takes from a doubled space) is
   * written as a line the next bm_parse rejects: strip() eats the leading tab.
   */
  lemma EmptyNameUnreadable(r: Record)
    requires Plain(r.path) && Plain(r.file) && Plain(r.time)
    requires |r.path| > 0 && !IsSpace(r.path[0])
    ensures Unformat(Format("", r)) == Err(FieldCount(6))
  {
    var f, g := Format("", r), Props(r);
    assert Strip(f) == g by {
      assert f == "\t" + g && f[1..] == g;
      assert StripLeft(f) == StripLeft(g);
      assert g[0] == r.path[0];
      assert g[|g| - 1] == IntStr(r.add)[|IntStr(r.add)| - 1];
      StripNoop(g);
    }
    assert |Split(g, '\t')| == 6 by { SplitProps(r); }
    assert Unformat(f) == Unpack(Split(g, '\t'));
  }

  // ---------------------------------------------------------------------------
  // The bookmark file

  /** l.split('\t')[0], the field bm_remove compares with the name. */
  function FirstField(l: string): string {
    Split(l, '\t')[0]
  }

  /** What bm_parse makes of one line: l.strip(), then bm_unformat. */
  function Decode(l: string): Result<(string, Record), ParseError> {
    Unformat(Strip(l))
  }

  /**
   * One iteration of bm_parse: a line that is exactly "\n" is skipped, any other line
   * is decoded into the dict (overriding an earlier entry) or raises.
   */
  function Step(prev: Result<map<string, Record>, ParseError>, l: string): Result<map<string, Record>, ParseError> {
    if prev.Err? || l == "\n" then prev
    else
      match Decode(l)
      case Err(e) => Err(e)
      case Ok((name, r)) => Ok(prev.value[name := r])
  }

  /**
   * bm_parse: drop the lines that are exactly "\n", decode the others in order and
   * let a later line for a name override an earlier one; the first line that does
   * not decode raises.
   */
  function ParseLines(lines: seq<string>): Result<map<string, Record>, ParseError> {
    if |lines| == 0 then Ok(map[]) else Step(ParseLines(lines[..|lines| - 1]), Last(lines))
  }

  lemma ParseLinesSnoc(init: seq<string>, l: string)
    ensures ParseLines(init + [l]) == Step(ParseLines(init), l)
  {
    assert (init + [l])[..|init|] == init;
  }

  /** Parsing one more line of the file is one more Step. */
  lemma ParsePrefixStep(lines: seq<string>, i: nat)
    requires i < |lines|
    ensures ParseLines(lines[..i + 1]) == Step(ParseLines(lines[..i]), lines[i])
  {
    assert lines[..i + 1] == lines[..i] + [lines[i]];
    ParseLinesSnoc(lines[..i], lines[i]);
  }

  /** Once a prefix of the file fails to decode, the whole file fails the same way. */
  lemma {:induction false} ParseLinesErrPrefix(lines: seq<string>, k: nat)
    requires k <= |lines| && ParseLines(lines[..k]).Err?
    ensures ParseLines(lines) == ParseLines(lines[..k])
    decreases |lines| - k
  {
    if k < |lines| {
      assert lines[..k + 1][..k] == lines[..k];
      ParseLinesErrPrefix(lines, k + 1);
    } else {
      assert lines[..k] == lines;
    }
  }

  /** A line that is blank or decodes to the name its first tab field holds. */
  predicate Named(l: string) {
    l != "\n" ==> Decode(l).Ok? && Decode(l).value.0 == FirstField(l)
  }

  /** One line of a file: a single line break, at its end. */
  predicate SingleLine(l: string) {
    |l| > 0 && l[|l| - 1] == '\n' && '\n' !in l[..|l| - 1]
  }

  /** The shape of a line the bot writes: a single line, named by its first field. */
  predicate LineShape(l: string) {
    SingleLine(l) && Named(l)
  }

  /** The store invariant: the file is made of well-shaped lines and decodes to the dict. */
  predicate Mirrors(lines: seq<string>, store: map<string, Record>) {
    && ParseLines(lines) == Ok(store)
    && forall l :: l in lines ==> LineShape(l)
  }

  // ---------------------------------------------------------------------------
  // The file's text and readlines()

  /** The text of the file. */
  function Flatten(lines: seq<string>): string {
    if |lines| == 0 then "" else lines[0] + Flatten(lines[1..])
  }

  /**
   * readlines() on a text: the text cut after every '\n', each line keeping its '\n';
   * a last piece without one is a line of its own.
   */
  function ReadLines(s: string): (r: seq<string>)
    ensures |r| == 0 <==> |s| == 0
  {
    if |s| == 0 then []
    else
      var rest := ReadLines(s[1..]);
      if s[0] == '\n' || |rest| == 0 then [[s[0]]] + rest
      else [[s[0]] + rest[0]] + rest[1..]
  }

  /**
   * The file as readlines() returns it after text is written at its end in mode 'a'.
   * The bot expects the file to end in a line break but does not check.
   */
  function AppendText(lines: seq<string>, text: string): seq<string> {
    ReadLines(Flatten(lines) + text)
  }

  lemma {:induction false} FlattenConcat(a: seq<string>, b: seq<string>)
    ensures Flatten(a + b) == Flatten(a) + Flatten(b)
  {
    if |a| > 0 {
      assert (a + b)[1..] == a[1..] + b;
      FlattenConcat(a[1..], b);
    } else {
      assert a + b == b;
    }
  }

  /** readlines() loses nothing: the lines put back together are the text. */
  lemma {:induction false} FlattenReadLines(s: string)
    ensures Flatten(ReadLines(s)) == s
  {
    if |s| > 0 {
      var rest := ReadLines(s[1..]);
      FlattenReadLines(s[1..]);
      var r := ReadLines(s);
      if s[0] == '\n' || |rest| == 0 {
        assert r[0] == [s[0]] && r[1..] == rest;
      } else {
        assert r[0] == [s[0]] + rest[0] && r[1..] == rest[1..];
        assert Flatten(rest) == rest[0] + Flatten(rest[1..]);
      }
      assert s == [s[0]] + s[1..];
    }
  }

  /** A text that ends in a line break cuts into lines independently of what follows. */
  lemma {:induction false} ReadLinesConcat(a: string, b: string)
    requires |a| == 0 || a[|a| - 1] == '\n'
    ensures ReadLines(a + b) == ReadLines(a) + ReadLines(b)
    decreases |a|
  {
    if |a| == 1 {
      assert (a + b)[0] == a[0] && (a + b)[1..] == b;
      assert a[1..] == "" && [a[0]] == a;
      assert ReadLines(a) == [a];
    } else if |a| > 1 {
      var t := a[1..];
      assert (a + b)[0] == a[0] && (a + b)[1..] == t + b;
      ReadLinesConcat(t, b);
      var rt := ReadLines(t);
      assert |rt| > 0;
      if a[0] != '\n' {
        var rest := rt + ReadLines(b);
        assert rest[0] == rt[0] && rest[1..] == rt[1..] + ReadLines(b);
      }
    } else {
      assert a + b == b;
    }
  }

  /** A single line reads as itself. */
  lemma {:induction false} ReadLinesSingle(l: string)
    requires SingleLine(l)
    ensures ReadLines(l) == [l]
    decreases |l|
  {
    if |l| > 1 {
      assert l[0] in l[..|l| - 1];
      var t := l[1..];
      assert t[..|t| - 1] == l[..|l| - 1][1..];
      ReadLinesSingle(t);
      assert [l[0]] + t == l;
    } else {
      assert l[1..] == "" && [l[0]] == l;
    }
  }

  /** A file made of single lines is read back as exactly those lines. */
  lemma {:induction false} ReadLinesFlatten(lines: seq<string>)
    requires forall l :: l in lines ==> SingleLine(l)
    ensures ReadLines(Flatten(lines)) == lines
  {
    if |lines| > 0 {
      assert lines[0] in lines;
      assert forall l :: l in lines[1..] ==> l in lines;
      ReadLinesConcat(lines[0], Flatten(lines[1..]));
      ReadLinesSingle(lines[0]);
      ReadLinesFlatten(lines[1..]);
      assert [lines[0]] + lines[1..] == lines;
    }
  }

  /** A mode-'a' write adds exactly the written text at the end of the file's text. */
  lemma AppendTextFlatten(lines: seq<string>, text: string)
    ensures Flatten(AppendText(lines, text)) == Flatten(lines) + text
  {
    FlattenReadLines(Flatten(lines) + text);
  }

  /** Writing one line to a file of single lines adds it as a new last line. */
  lemma AppendLine(lines: seq<string>, text: string)
    requires forall l :: l in lines ==> SingleLine(l)
    requires SingleLine(text)
    ensures AppendText(lines, text) == lines + [text]
  {
    FlattenConcat(lines, [text]);
    assert |[text][1..]| == 0 && Flatten([text]) == text;
    ReadLinesFlatten(lines + [text]);
  }

  /** Writing one line to a file whose last line lacks its line break continues that line. */
  lemma AppendContinues(init: seq<string>, u: string, text: string)
    requires forall l :: l in init ==> SingleLine(l)
    requires |u| > 0 && '\n' !in u && SingleLine(text)
    ensures AppendText(init + [u], text) == init + [u + text]
  {
    var j: string := u + text;
    assert Flatten(init + [u]) + text == Flatten(init + [j]) by {
      FlattenConcat(init, [u]);
      FlattenConcat(init, [j]);
      assert |[u][1..]| == 0;
      assert |[j][1..]| == 0;
      assert Flatten([u]) == u && Flatten([j]) == j;
    }
    assert SingleLine(j) by {
      assert j[..|j| - 1] == u + text[..|text| - 1];
    }
    assert forall l :: l in init + [j] ==> SingleLine(l);
    ReadLinesFlatten(init + [j]);
  }

  /** Text holding two line breaks, the last at its end, adds two lines. */
  lemma AppendTwoLines(lines: seq<string>, t1: string, t2: string)
    requires forall l :: l in lines ==> SingleLine(l)
    requires SingleLine(t1) && SingleLine(t2)
    ensures AppendText(lines, t1 + t2) == lines + [t1, t2]
  {
    FlattenConcat(lines, [t1, t2]);
    assert Flatten([t1, t2]) == t1 + t2 by {
      assert [t1, t2][1..] == [t2] && |[t2][1..]| == 0;
      assert Flatten([t2]) == t2;
    }
    ReadLinesFlatten(lines + [t1, t2]);
  }

  /** bm_remove's filter: the lines whose first tab field is not name, in file order. */
  function KeepOthers(lines: seq<string>, name: string): (r: seq<string>)
    ensures |r| <= |lines|
    ensures forall l :: l in r <==> l in lines && FirstField(l) != name
  {
    if |lines| == 0 then []
    else
      var init := lines[..|lines| - 1];
      assert lines == init + [Last(lines)];
      KeepOthers(init, name) + (if FirstField(Last(lines)) != name then [Last(lines)] else [])
  }

  /** A kept line contributes to the dict without the name what it contributed before. */
  lemma StepKeep(d: map<string, Record>, l: string, name: string)
    requires Named(l) && Step(Ok(d), l).Ok? && FirstField(l) != name
    ensures Step(Ok(d - {name}), l) == Ok(Step(Ok(d), l).value - {name})
  {
    if l != "\n" {
      var n, r := Decode(l).value.0, Decode(l).value.1;
      RemoveUpdate(d, name, n, r);
    }
  }

  /** Updating another key commutes with removing a key. */
  lemma RemoveUpdate(d: map<string, Record>, name: string, n: string, r: Record)
    requires n != name
    ensures (d - {name})[n := r] == d[n := r] - {name}
  {
  }

  /** Dropping a key and then setting it is the same as setting it. */
  lemma ReplaceEntry(d: map<string, Record>, name: string, r: Record)
    ensures (d - {name})[name := r] == d[name := r]
  {
  }

  /** A dropped line contributed at most the name itself. */
  lemma StepDrop(d: map<string, Record>, l: string, name: string)
    requires Named(l) && Step(Ok(d), l).Ok? && FirstField(l) == name
    ensures d - {name} == Step(Ok(d), l).value - {name}
  {
    if l != "\n" {
      var r := Decode(l).value.1;
      assert d[name := r] - {name} == d - {name};
    }
  }

  /** Filtering out a name's lines decodes to the dict without that name. */
  lemma {:induction false} ParseKeepOthers(lines: seq<string>, name: string)
    requires ParseLines(lines).Ok?
    requires forall l :: l in lines ==> Named(l)
    ensures ParseLines(KeepOthers(lines, name)) == Ok(ParseLines(lines).value - {name})
  {
    if |lines| == 0 {
      assert ParseLines(lines).value - {name} == map[];
    } else {
      var init, l := lines[..|lines| - 1], Last(lines);
      assert lines == init + [l];
      assert ParseLines(init).Ok?;
      ParseKeepOthers(init, name);
      var d0 := ParseLines(init).value;
      var k0 := KeepOthers(init, name);
      assert ParseLines(k0) == Ok(d0 - {name});
      assert ParseLines(lines) == Step(Ok(d0), l);
      assert Named(l);
      if FirstField(l) != name {
        assert KeepOthers(lines, name) == k0 + [l];
        ParseLinesSnoc(k0, l);
        StepKeep(d0, l, name);
      } else {
        assert KeepOthers(lines, name) == k0;
        StepDrop(d0, l, name);
      }
    }
  }

  /** The invariant survives dropping one name from the dict and its lines from the file. */
  lemma MirrorsRemove(lines: seq<string>, store: map<string, Record>, name: string)
    requires Mirrors(lines, store)
    ensures Mirrors(KeepOthers(lines, name), store - {name})
  {
    ParseKeepOthers(lines, name);
  }

  /** The invariant survives adding a storable record to the dict and its line to the file. */
  lemma MirrorsAppend(lines: seq<string>, store: map<string, Record>, name: string, r: Record)
    requires Mirrors(lines, store) && Storable(name, r)
    ensures Mirrors(AppendText(lines, Format(name, r) + "\n"), store[name := r])
  {
    var x := Format(name, r) + "\n";
    StorableLine(name, r);
    AppendLine(lines, x);
    ParseLinesSnoc(lines, x);
  }

  /** The line the bot writes for a storable bookmark is well shaped and decodes to it. */
  lemma StorableLine(name: string, r: Record)
    requires Storable(name, r)
    ensures LineShape(Format(name, r) + "\n") && Decode(Format(name, r) + "\n") == Ok((name, r))
  {
    var f := Format(name, r);
    var x := f + "\n";
    assert Decode(x) == Ok((name, r)) by {
      UnformatFormat(name, r);
      StripFormat(name, r);
    }
    assert '\n' !in f by {
      IntStrPlain(r.pid);
      IntStrPlain(r.pos);
      IntStrPlain(r.add);
    }
    assert x[..|x| - 1] == f;
    assert FirstField(x) == name by {
      assert x == name + ['\t'] + (Props(r) + "\n");
      SplitHead(name, Props(r) + "\n", '\t');
    }
  }

  /**
   * The invariant survives what bm_update does to a name already in the dict, or to a
   * name no line carries: drop its lines, then append its new one.
   */
  lemma MirrorsReplace(lines: seq<string>, store: map<string, Record>, name: string, r: Record)
    requires Mirrors(lines, store) && Storable(name, r)
    ensures Mirrors(AppendText(KeepOthers(lines, name), Format(name, r) + "\n"), store[name := r])
  {
    MirrorsRemove(lines, store, name);
    MirrorsAppend(KeepOthers(lines, name), store - {name}, name, r);
    assert (store - {name})[name := r] == store[name := r];
  }

  /** A line adds exactly its first field to the names of a dict, or nothing when blank. */
  lemma StepNames(d: map<string, Record>, l: string, name: string)
    requires Named(l) && Step(Ok(d), l).Ok?
    ensures name in Step(Ok(d), l).value <==> name in d || (l != "\n" && FirstField(l) == name)
  {
  }

  /** A file that decodes to a dict has a line for a name exactly when the dict has it. */
  lemma {:induction false} ParseNames(lines: seq<string>, name: string)
    requires ParseLines(lines).Ok?
    requires forall l :: l in lines ==> Named(l)
    ensures name in ParseLines(lines).value <==>
      exists l :: l in lines && l != "\n" && FirstField(l) == name
  {
    if |lines| > 0 {
      var init, l := lines[..|lines| - 1], Last(lines);
      assert lines == init + [l];
      assert ParseLines(init).Ok?;
      ParseNames(init, name);
      StepNames(ParseLines(init).value, l, name);
    }
  }

  /** A file that mirrors the dict has a line for a name exactly when the dict has it. */
  lemma MirrorsNames(lines: seq<string>, store: map<string, Record>, name: string)
    requires Mirrors(lines, store)
    ensures name in store <==> exists l :: l in lines && l != "\n" && FirstField(l) == name
  {
    ParseNames(lines, name);
  }

  /** For a name the dict lacks, bm_remove's filter would keep the whole file. */
  lemma AbsentNameKeepsFile(lines: seq<string>, store: map<string, Record>, name: string)
    requires Mirrors(lines, store) && name !in store && name != "\n"
    ensures KeepOthers(lines, name) == lines
  {
    MirrorsNames(lines, store, name);
    KeepAll(lines, name);
  }

  lemma {:induction false} KeepAll(lines: seq<string>, name: string)
    requires name != "\n"
    requires forall l :: l in lines && l != "\n" ==> FirstField(l) != name
    ensures KeepOthers(lines, name) == lines
  {
    if |lines| > 0 {
      var init := lines[..|lines| - 1];
      assert lines == init + [Last(lines)];
      KeepAll(init, name);
      SplitNoSeparator("\n", '\t');
    }
  }

  // ---------------------------------------------------------------------------
  // The store object

  class BookmarkStore {
    /** bm_store */
    var store: map<string, Record>
    /** The contents of the bookmark file. */
    var lines: seq<string>

    predicate Valid()
      reads this
    {
      Mirrors(lines, store)
    }

    /** A store over a bookmark file, before it is parsed. */
    constructor(file: seq<string>)
      ensures lines == file && store == map[]
    {
      lines := file;
      store := map[];
    }

    /** The store the bot starts with when there is no bookmark file: an empty one. */
    constructor Fresh()
      ensures lines == [] && store == map[] && Valid()
    {
      lines := [];
      store := map[];
    }

    /**
     * bm_parse: decode the file into a new dict and install it; when a line does not
     * decode, the error propagates and the dict is left as it was.
     */
    method Parse() returns (r: Result<map<string, Record>, ParseError>)
      modifies this
      ensures lines == old(lines)
      ensures r == ParseLines(lines)
      ensures r.Ok? ==> store == r.value
      ensures r.Err? ==> store == old(store)
    {
      var d: map<string, Record> := map[];
      var i := 0;
      while i < |lines|
        invariant 0 <= i <= |lines|
        invariant lines == old(lines) && store == old(store)
        invariant ParseLines(lines[..i]) == Ok(d)
      {
        var l := lines[i];
        ParsePrefixStep(lines, i);
        if l != "\n" {
          var u := Decode(l);
          if u.Err? {
            ParseLinesErrPrefix(lines, i + 1);
            return Err(u.error);
          }
          d := d[u.value.0 := u.value.1];
        }
        i := i + 1;
      }
      assert lines[..|lines|] == lines;
      store := d;
      r := Ok(d);
    }

    /**
     * bm_remove: "*" empties the dict and the file; a name the dict lacks changes
     * nothing; otherwise the name goes from the dict and its lines from the file.
     */
    method Remove(name: string) returns (removed: bool)
      modifies this
      ensures name == "*" ==> removed && store == map[] && lines == []
      ensures name != "*" && name !in old(store) ==>
        !removed && store == old(store) && lines == old(lines)
      ensures name != "*" && name in old(store) ==>
        removed && store == old(store) - {name} && lines == KeepOthers(old(lines), name)
      ensures old(Valid()) ==> Valid()
    {
      if name == "*" {
        store := map[];
        lines := [];
        return true;
      }
      if name !in store {
        return false;
      }
      ghost var before := lines;
      ghost var d := store;
      store := store - {name};
      lines := KeepOthers(lines, name);
      if Mirrors(before, d) {
        MirrorsRemove(before, d, name);
      }
      removed := true;
    }

    /**
     * bm_add: set the dict entry and write the record's line at the end of the file
     * (mode 'a'), which continues the last line when that lacks its line break.
     */
    method Add(name: string, r: Record)
      modifies this
      ensures store == old(store)[name := r]
      ensures lines == AppendText(old(lines), Format(name, r) + "\n")
      ensures old(Valid()) && Storable(name, r) ==> lines == old(lines) + [Format(name, r) + "\n"]
      ensures old(Valid()) && Storable(name, r) ==> Valid()
    {
      ghost var before := lines;
      ghost var d := store;
      store := store[name := r];
      lines := AppendText(lines, Format(name, r) + "\n");
      if Mirrors(before, d) && Storable(name, r) {
        StorableLine(name, r);
        AppendLine(before, Format(name, r) + "\n");
      }
      if Mirrors(before, d) && Storable(name, r) {
        MirrorsAppend(before, d, name, r);
      }
    }

    /**
     * bm_update: bm_remove then bm_add, answering whether the name was there. Being
     * built on bm_remove, updating the name "*" first wipes every bookmark.
     */
    method Update(name: string, r: Record) returns (existed: bool)
      modifies this
      ensures existed == (name == "*" || name in old(store))
      ensures name == "*" ==> store == map[name := r] && lines == AppendText([], Format(name, r) + "\n")
      ensures name != "*" ==> store == old(store)[name := r]
      ensures name != "*" ==>
        lines == AppendText(if name in old(store) then KeepOthers(old(lines), name) else old(lines), Format(name, r) + "\n")
      ensures old(Valid()) && Storable(name, r) ==> Valid()
    {
      if name == "*" {
        existed := Remove(name);
        Add(name, r);
      } else if name in store {
        ghost var d := store;
        existed := Remove(name);
        Add(name, r);
        ReplaceEntry(d, name, r);
      } else {
        existed := Remove(name);
        Add(name, r);
      }
    }

    /**
     * bm_recent: the name of a record added strictly later than every other one it is
     * compared with, starting from 0, so None when no record has add > 0. Which of
     * several records tied for the latest wins depends on dict order, which the model
     * leaves open.
     */
    method Recent() returns (name: Option<string>)
      ensures name.None? <==> forall k :: k in store ==> store[k].add <= 0
      ensures name.Some? ==> name.value in store && store[name.value].add > 0
      ensures name.Some? ==> forall k :: k in store ==> store[k].add <= store[name.value].add
    {
      name := None;
      var add := 0;
      var todo := store.Keys;
      while todo != {}
        invariant todo <= store.Keys
        invariant name.None? ==> add == 0
        invariant name.Some? ==> name.value in store && store[name.value].add == add > 0
        invariant forall k :: k in store && k !in todo ==> store[k].add <= add
        decreases |todo|
      {
        var k :| k in todo;
        var t := store[k].add;
        if t > add {
          name := Some(k);
          add := t;
        }
        todo := todo - {k};
      }
    }
  }
}
