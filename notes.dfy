/**
 * The note command: argument parsing into a verb and a body, and the note list
 * the bot keeps in memory and mirrors to the note file, one note per line and a
 * final blank line. Users number notes from 1.
 */
module Notes {
  import opened Common
  import opened Text
  import opened Clock

  /** The verbs note understands; anything else is a "show" argument. */
  predicate IsVerb(w: string) {
    w == "show" || w == "add" || w == "playing" || w == "remove"
  }

  /**
   * The argument handling at the top of note: split on spaces; an empty first word
   * becomes "show"; a first word that is not a verb gets "show" put in front of it;
   * the words after the verb are joined back with single spaces as the body ("" if
   * there are none).
   */
  function NoteArgs(args: string): (r: (string, string))
    ensures IsVerb(r.0)
  {
    var w := Split(args, ' ');
    var w1 := if w[0] == "" then ["show"] + w[1..] else w;
    var w2 := if IsVerb(w1[0]) then w1 else ["show"] + w1;
    if |w2| < 2 then (w2[0], "") else (w2[0], Join(w2[1..], ' '))
  }

  /** A verb, a space and a body parse as that verb and exactly that body. */
  lemma NoteArgsVerb(verb: string, body: string)
    requires IsVerb(verb)
    ensures NoteArgs(verb + " " + body) == (verb, body)
  {
    SplitNoSeparator(verb, ' ');
    SplitConcat(verb, body, ' ');
    JoinSplit(body, ' ');
    assert Split(verb + " " + body, ' ')[1..] == Split(body, ' ');
  }

  /** A bare verb has an empty body. */
  lemma NoteArgsBareVerb(verb: string)
    requires IsVerb(verb)
    ensures NoteArgs(verb) == (verb, "")
  {
    SplitNoSeparator(verb, ' ');
  }

  /** Arguments that do not start with a verb are all the body of a "show". */
  lemma NoteArgsShow(args: string)
    requires Split(args, ' ')[0] != "" && !IsVerb(Split(args, ' ')[0])
    ensures NoteArgs(args) == ("show", args)
  {
    var w := Split(args, ' ');
    JoinSplit(args, ' ');
    assert (["show"] + w)[1..] == w;
  }

  /** The body of "note playing": the argument text, then the playing file and time. */
  function PlayingBody(body: string, file: string, t: Time): (r: string)
    ensures r != "" && body <= r
  {
    body + " --- file \"" + file + "\" at " + Time2Str(t)
  }

  /** note_write: every note on its own line, then one blank line. */
  function NoteFile(notes: seq<string>): (lines: seq<string>)
    ensures |lines| == |notes| + 1 && Last(lines) == "\n"
    ensures forall i :: 0 <= i < |notes| ==> lines[i] == notes[i] + "\n"
  {
    if |notes| == 0 then ["\n"] else [notes[0] + "\n"] + NoteFile(notes[1..])
  }

  /** note_parse: the stripped lines of the file, lines that are exactly "\n" dropped. */
  function NoteParse(lines: seq<string>): seq<string> {
    if |lines| == 0 then []
    else (if lines[0] == "\n" then [] else [Strip(lines[0])]) + NoteParse(lines[1..])
  }

  /** A note that reads back unchanged: non-empty, no line break, nothing to strip. */
  predicate Clean(n: string) {
    |n| > 0 && '\n' !in n && !IsSpace(n[0]) && !IsSpace(n[|n| - 1])
  }

  /** note_parse reads back what note_write wrote, for clean notes. */
  lemma {:induction false} NoteParseFile(notes: seq<string>)
    requires forall i :: 0 <= i < |notes| ==> Clean(notes[i])
    ensures NoteParse(NoteFile(notes)) == notes
  {
    if |notes| > 0 {
      var n := notes[0];
      assert Clean(n);
      StripNewline(n);
      assert n + "\n" != "\n";
      NoteParseFile(notes[1..]);
      assert NoteFile(notes)[1..] == NoteFile(notes[1..]);
      assert [n] + notes[1..] == notes;
    }
  }

  /** A note with a leading space (from a doubled space after "add") reads back stripped. */
  lemma PaddedNoteReadsBackStripped()
    ensures NoteParse(NoteFile([" x"])) == ["x"]
  {
    var l := " x\n";
    assert [" x"][1..] == [];
    assert " x" + "\n" == l;
    assert NoteFile([" x"]) == [l] + ["\n"];
    assert StripLeft(l) == "x\n" by { assert l[1..] == "x\n"; }
    assert StripRight("x\n") == "x" by { assert "x\n"[..1] == "x"; }
  }

  /** Why note add or note remove refused to change the list. */
  datatype NoteError = BlankBody | NotAnInteger | OutOfRange(count: nat)

  /** What note answers; the text of the show listing is not modelled. */
  datatype NoteReply = Added(count: nat) | RemovedNote(num: int, body: string) | Refused(error: NoteError) | Shown

  /** The argument of note remove names an existing note, counted from 1. */
  predicate ValidNumber(arg: string, count: nat) {
    ParseInt(arg).Some? && 1 <= ParseInt(arg).value <= count
  }

  /**
   * "note remove + 2" names note 2: int() skips the space after the sign, so with two
   * or more notes remove deletes the second.
   */
  lemma RemoveSpacedSign(count: nat)
    requires count >= 2
    ensures NoteArgs("remove + 2") == ("remove", "+ 2")
    ensures ValidNumber("+ 2", count) && ParseInt("+ 2").value == 2
  {
    assert "remove" + " " + "+ 2" == "remove + 2";
    NoteArgsVerb("remove", "+ 2");
    ParseIntSpaceAfterSign();
  }

  class NoteList {
    /** self.notes */
    var notes: seq<string>
    /** The contents of the note file. */
    var lines: seq<string>

    /** The file always holds exactly what note_write last wrote. */
    predicate Valid()
      reads this
    {
      lines == NoteFile(notes)
    }

    /** The list read from an existing note file (note_parse). */
    constructor(file: seq<string>)
      ensures notes == NoteParse(file) && lines == file
    {
      notes := NoteParse(file);
      lines := file;
    }

    /** The empty list and the empty file the bot creates when there is no note file. */
    constructor Fresh()
      ensures notes == [] && lines == []
    {
      notes := [];
      lines := [];
    }

    /**
     * note add: a blank body is refused; otherwise the body is appended, the file
     * rewritten, and the new count (the note's 1-based number) returned.
     */
    method Add(body: string) returns (r: Result<nat, NoteError>)
      modifies this
      ensures body == "" ==> r == Err(BlankBody) && notes == old(notes) && lines == old(lines)
      ensures body != "" ==> r == Ok(|notes|) && notes == old(notes) + [body] && Valid()
    {
      if body == "" {
        return Err(BlankBody);
      }
      notes := notes + [body];
      lines := NoteFile(notes);
      r := Ok(|notes|);
    }

    /**
     * note remove: the argument must parse as an integer n with 1 <= n <= the number
     * of notes; note n is deleted, the file rewritten, and n and the note returned.
     */
    method Remove(arg: string) returns (r: Result<(int, string), NoteError>)
      modifies this
      ensures ParseInt(arg).None? ==> r == Err(NotAnInteger)
      ensures ParseInt(arg).Some? && !(1 <= ParseInt(arg).value <= |old(notes)|) ==>
        r == Err(OutOfRange(|old(notes)|))
      ensures r.Err? ==> notes == old(notes) && lines == old(lines)
      ensures ParseInt(arg).Some? && 1 <= ParseInt(arg).value <= |old(notes)| ==>
        var k := ParseInt(arg).value - 1;
        && r == Ok((k + 1, old(notes)[k]))
        && notes == old(notes)[..k] + old(notes)[k + 1..]
        && Valid()
    {
      var n := ParseInt(arg);
      if n.None? {
        return Err(NotAnInteger);
      }
      var num := n.value - 1;
      if num < 0 || num > |notes| - 1 {
        return Err(OutOfRange(|notes|));
      }
      var body := notes[num];
      notes := notes[..num] + notes[num + 1..];
      lines := NoteFile(notes);
      r := Ok((num + 1, body));
    }

    /**
     * note: parse the arguments; "playing" extends the body with the playing file and
     * time and then adds; add and remove change the list; show leaves it alone.
     */
    method Command(args: string, file: string, t: Time) returns (reply: NoteReply)
      modifies this
      ensures var (verb, body) := NoteArgs(args);
        && (verb == "show" ==> reply == Shown && notes == old(notes) && lines == old(lines))
        && (verb == "playing" ==> reply.Added? && notes == old(notes) + [PlayingBody(body, file, t)] && Valid())
        && (verb == "add" ==> (body == "" <==> reply == Refused(BlankBody)))
        && (verb == "add" && body != "" ==> reply == Added(|notes|) && notes == old(notes) + [body] && Valid())
        && (verb == "remove" ==> (reply.Refused? <==> !ValidNumber(body, |old(notes)|)))
        && (verb == "remove" && ValidNumber(body, |old(notes)|) ==>
              var k := ParseInt(body).value - 1;
              reply == RemovedNote(k + 1, old(notes)[k]) && notes == old(notes)[..k] + old(notes)[k + 1..] && Valid())
      ensures reply.Refused? ==> notes == old(notes) && lines == old(lines)
    {
      var (verb, body) := NoteArgs(args);
      if verb == "playing" {
        verb, body := "add", PlayingBody(body, file, t);
      }
      if verb == "add" {
        var r := Add(body);
        reply := if r.Ok? then Added(r.value) else Refused(r.error);
      } else if verb == "remove" {
        var r := Remove(body);
        reply := if r.Ok? then RemovedNote(r.value.0, r.value.1) else Refused(r.error);
      } else {
        reply := Shown;
      }
    }
  }
}
