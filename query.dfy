/**
 * The query matcher behind the search, audio(s) and video(s) commands: a
 * whitespace-split query is turned into terms (quote blocking), each library path
 * is tested against every term (checkall), and the surviving paths are sorted.
 */
module Query {
  import opened Common
  import opened Text

  // ---------------------------------------------------------------------------
  // Quote blocking

  predicate StartsWithQuote(a: string) {
    |a| > 0 && a[0] == '"'
  }

  predicate EndsWithQuote(a: string) {
    |a| > 0 && a[|a| - 1] == '"'
  }

  /** arg[1:-1] (empty for a one-character arg). */
  function Unquote(a: string): string {
    if |a| >= 2 then a[1..|a| - 1] else ""
  }

  /** s.replace('"', '') */
  function RemoveQuotes(s: string): (r: string)
    ensures '"' !in r
  {
    if |s| == 0 then "" else (if s[0] == '"' then "" else [s[0]]) + RemoveQuotes(s[1..])
  }

  /**
   * The terms the quote-blocking loop of matches emits for the arguments still to be
   * read, given whether a quote is open and the text accumulated for it so far.
   * Branches, in the order the loop tries them: a token wrapped in quotes is one term;
   * an opening quote starts (or continues) accumulating without separator; a closing
   * quote appends ' ' + token, emits and resets; inside a quote a token is appended
   * after a space; otherwise a token is a term of its own. An unterminated quote
   * emits what was accumulated, with every '"' removed.
   */
  function TermsFrom(args: seq<string>, quote: bool, acc: string): seq<string> {
    if |args| == 0 then (if quote then [RemoveQuotes(acc)] else [])
    else
      var arg, rest := args[0], args[1..];
      if StartsWithQuote(arg) && EndsWithQuote(arg) then [Unquote(arg)] + TermsFrom(rest, quote, acc)
      else if StartsWithQuote(arg) then TermsFrom(rest, true, acc + arg[1..])
      else if EndsWithQuote(arg) then [acc + " " + arg[..|arg| - 1]] + TermsFrom(rest, false, "")
      else if quote then TermsFrom(rest, true, acc + " " + arg)
      else [arg] + TermsFrom(rest, false, acc)
  }

  /** The terms of a split query. */
  function Terms(args: seq<string>): seq<string> {
    TermsFrom(args, false, "")
  }

  /**
   * A query as its author means it: single words and quoted phrases. A phrase is
   * typed as its words separated by single spaces, wrapped in double quotes.
   */
  datatype Part = Word(w: string) | Phrase(words: seq<string>)

  /**
   * The parts quote blocking reads back faithfully: a word that neither starts nor
   * ends with '"'; a phrase of quote-free words whose first and last words are
   * non-empty when it has two or more.
   */
  predicate WellFormed(p: Part) {
    match p
    case Word(w) => !StartsWithQuote(w) && !EndsWithQuote(w)
    case Phrase(ws) =>
      && |ws| >= 1
      && (forall i :: 0 <= i < |ws| ==> '"' !in ws[i])
      && (|ws| >= 2 ==> ws[0] != "" && Last(ws) != "")
  }

  /** The tokens (space-separated words) a part is typed as. */
  function Tokens(p: Part): seq<string> {
    match p
    case Word(w) => [w]
    case Phrase(ws) =>
      if |ws| <= 1 then ["\"" + (if |ws| == 1 then ws[0] else "") + "\""]
      else ["\"" + ws[0]] + ws[1..|ws| - 1] + [Last(ws) + "\""]
  }

  /** The term a part stands for. */
  function Meaning(p: Part): string {
    match p
    case Word(w) => w
    case Phrase(ws) => Join(ws, ' ')
  }

  function Render(ps: seq<Part>): seq<string> {
    if |ps| == 0 then [] else Tokens(ps[0]) + Render(ps[1..])
  }

  function Meanings(ps: seq<Part>): seq<string> {
    if |ps| == 0 then [] else [Meaning(ps[0])] + Meanings(ps[1..])
  }

  /** ' ' + w for every w, concatenated: Join(ws) == ws[0] + Spaced(ws[1..]). */
  function Spaced(ws: seq<string>): string {
    if |ws| == 0 then "" else " " + ws[0] + Spaced(ws[1..])
  }

  lemma {:induction false} JoinSpaced(ws: seq<string>)
    requires |ws| >= 1
    ensures Join(ws, ' ') == ws[0] + Spaced(ws[1..])
  {
    if |ws| > 1 {
      JoinSpaced(ws[1..]);
      assert ws[1..][1..] == ws[2..];
    }
  }

  lemma {:induction false} SpacedAppend(ws: seq<string>, w: string)
    ensures Spaced(ws + [w]) == Spaced(ws) + " " + w
  {
    if |ws| > 0 {
      assert (ws + [w])[1..] == ws[1..] + [w];
      SpacedAppend(ws[1..], w);
    }
  }

  /** Inside an open quote, quote-free tokens are appended one space apart. */
  lemma {:induction false} TermsInsideQuote(mid: seq<string>, tail: seq<string>, acc: string)
    requires forall i :: 0 <= i < |mid| ==> '"' !in mid[i]
    ensures TermsFrom(mid + tail, true, acc) == TermsFrom(tail, true, acc + Spaced(mid))
  {
    if |mid| == 0 {
      assert mid + tail == tail;
      assert acc + Spaced(mid) == acc;
    } else {
      var m := mid[0];
      assert mid + tail == [m] + (mid[1..] + tail);
      InsideQuoteStep(m, mid[1..] + tail, acc);
      TermsInsideQuote(mid[1..], tail, acc + " " + m);
      assert acc + " " + m + Spaced(mid[1..]) == acc + Spaced(mid);
    }
  }

  /** One quote-free token inside an open quote joins the accumulated term. */
  lemma InsideQuoteStep(m: string, rest: seq<string>, acc: string)
    requires '"' !in m
    ensures TermsFrom([m] + rest, true, acc) == TermsFrom(rest, true, acc + " " + m)
  {
    assert ([m] + rest)[0] == m && ([m] + rest)[1..] == rest;
    assert !StartsWithQuote(m) && !EndsWithQuote(m);
  }

  /** Quote blocking turns the tokens of one well-formed part into its one term. */
  lemma TermsOfPart(p: Part, tail: seq<string>)
    requires WellFormed(p)
    ensures TermsFrom(Tokens(p) + tail, false, "") == [Meaning(p)] + TermsFrom(tail, false, "")
  {
    match p
    case Word(w) =>
    case Phrase(ws) =>
      if |ws| == 1 {
        var tok := "\"" + ws[0] + "\"";
        assert Unquote(tok) == ws[0];
        assert ([tok] + tail)[1..] == tail;
      } else {
        var mid := ws[1..|ws| - 1];
        OpenQuote(ws[0], mid + ([Last(ws) + "\""] + tail));
        assert Tokens(p) + tail == ["\"" + ws[0]] + (mid + ([Last(ws) + "\""] + tail));
        assert forall i :: 0 <= i < |mid| ==> '"' !in mid[i] by {
          forall i | 0 <= i < |mid| ensures '"' !in mid[i] { assert mid[i] == ws[i + 1]; }
        }
        TermsInsideQuote(mid, [Last(ws) + "\""] + tail, ws[0]);
        CloseQuote(ws[0] + Spaced(mid), Last(ws), tail);
        JoinMiddle(ws);
      }
  }

  /** A token '"' + w, with w non-empty and free of '"', opens a quote holding w. */
  lemma OpenQuote(w: string, rest: seq<string>)
    requires |w| > 0 && '"' !in w
    ensures TermsFrom(["\"" + w] + rest, false, "") == TermsFrom(rest, true, w)
  {
    var first := "\"" + w;
    assert (["\"" + w] + rest)[1..] == rest;
    assert first[1..] == w && "" + w == w;
    assert !EndsWithQuote(first) by {
      assert first[|first| - 1] == w[|w| - 1];
    }
  }

  /** A token w + '"', with w non-empty and free of '"', closes the open quote. */
  lemma CloseQuote(acc: string, w: string, tail: seq<string>)
    requires |w| > 0 && '"' !in w
    ensures TermsFrom([w + "\""] + tail, true, acc) == [acc + " " + w] + TermsFrom(tail, false, "")
  {
    var last := w + "\"";
    assert !StartsWithQuote(last) by { assert last[0] == w[0]; }
    assert last[..|last| - 1] == w;
    assert ([last] + tail)[0] == last && ([last] + tail)[1..] == tail;
  }

  /** A phrase of two or more words is its first word, the middle ones and the last, spaced. */
  lemma JoinMiddle(ws: seq<string>)
    requires |ws| >= 2
    ensures Join(ws, ' ') == ws[0] + Spaced(ws[1..|ws| - 1]) + " " + Last(ws)
  {
    var mid, l := ws[1..|ws| - 1], Last(ws);
    assert ws[1..] == mid + [l] by {
      InitLast(ws[1..]);
      assert ws[1..][..|ws| - 2] == mid;
    }
    JoinSpaced(ws);
    SpacedAppend(mid, l);
    Glue(Join(ws, ' '), ws[0], Spaced(ws[1..]), Spaced(mid), l);
  }

  /** Substituting one concatenation into another. */
  lemma Glue(j: string, a: string, t: string, b: string, d: string)
    requires j == a + t && t == b + " " + d
    ensures j == a + b + " " + d
  {
    assert a + (b + " " + d) == a + b + " " + d;
  }

  /** A non-empty sequence is its front followed by its last element. */
  lemma InitLast<T>(s: seq<T>)
    requires |s| > 0
    ensures s == s[..|s| - 1] + [s[|s| - 1]]
  {
  }

  /**
   * Quote blocking reads a query typed from well-formed words and phrases back as
   * exactly the words and phrases meant, in order.
   */
  lemma {:induction false} TermsOfRender(ps: seq<Part>)
    requires forall i :: 0 <= i < |ps| ==> WellFormed(ps[i])
    ensures Terms(Render(ps)) == Meanings(ps)
  {
    if |ps| > 0 {
      TermsOfRender(ps[1..]);
      TermsOfPart(ps[0], Render(ps[1..]));
    }
  }

  /** A closing quote with no quote open yields a term with a leading space. */
  lemma StrayClosingQuote(w: string, tail: seq<string>)
    requires !StartsWithQuote(w + "\"")
    ensures TermsFrom([w + "\""] + tail, false, "") == [" " + w] + TermsFrom(tail, false, "")
  {
    var tok := w + "\"";
    assert tok[..|tok| - 1] == w;
    assert ([tok] + tail)[0] == tok && ([tok] + tail)[1..] == tail;
    assert "" + " " + w == " " + w;
  }

  /** An unterminated quote emits the rest of the query, quotes removed. */
  lemma UnterminatedQuote(w: string, rest: seq<string>)
    requires !EndsWithQuote("\"" + w)
    requires forall i :: 0 <= i < |rest| ==> '"' !in rest[i]
    ensures Terms(["\"" + w] + rest) == [RemoveQuotes(w + Spaced(rest))]
  {
    var tok := "\"" + w;
    assert tok[1..] == w && "" + w == w;
    assert ([tok] + rest)[0] == tok && ([tok] + rest)[1..] == rest;
    assert Terms([tok] + rest) == TermsFrom(rest, true, w);
    TermsInsideQuote(rest, [], w);
    assert rest + [] == rest;
    assert TermsFrom([], true, w + Spaced(rest)) == [RemoveQuotes(w + Spaced(rest))];
  }

  // ---------------------------------------------------------------------------
  // The term predicate

  /**
   * checkall(terms, s). None stands for the IndexError that x[0] raises on an empty
   * term; matches catches it and drops the path.
   */
  function CheckAll(terms: seq<string>, s: string): Option<bool> {
    if |terms| == 0 then Some(true)
    else
      var x := terms[0];
      if |x| == 0 then None
      else if x[0] != '-' && !ContainsIgnoringCase(s, x) then Some(false)
      else if x[0] == '-' && ContainsIgnoringCase(s, x[1..]) && |x[1..]| > 0 then Some(false)
      else CheckAll(terms[1..], s)
  }

  /**
   * What one non-empty term asks of a path: "-x" with x non-empty asks that x not occur,
   * a bare "-" asks nothing, anything else must occur; all ignoring case.
   */
  predicate Admits(term: string, s: string)
    requires |term| > 0
  {
    if term[0] == '-' then |term| == 1 || !ContainsIgnoringCase(s, term[1..])
    else ContainsIgnoringCase(s, term)
  }

  /** A path is matched when every term is non-empty and admits it. */
  predicate Satisfies(terms: seq<string>, s: string) {
    forall i :: 0 <= i < |terms| ==> |terms[i]| > 0 && Admits(terms[i], s)
  }

  /**
   * checkall accepts a path exactly when every term admits it and none is empty, and
   * it raises only when some term is empty.
   */
  lemma {:induction false} CheckAllMeaning(terms: seq<string>, s: string)
    ensures CheckAll(terms, s) == Some(true) <==> Satisfies(terms, s)
    ensures CheckAll(terms, s) == None ==> exists i :: 0 <= i < |terms| && terms[i] == ""
  {
    if |terms| > 0 {
      CheckAllMeaning(terms[1..], s);
      assert forall i :: 0 < i < |terms| ==> terms[i] == terms[1..][i - 1];
      if CheckAll(terms, s) == None && terms[0] != "" {
        assert CheckAll(terms[1..], s) == None;
        var i :| 0 <= i < |terms[1..]| && terms[1..][i] == "";
        assert terms[i + 1] == "";
      }
    }
  }

  /** A bare "-" anywhere in the query changes nothing. */
  lemma BareDashIsNoOp(before: seq<string>, after: seq<string>, s: string)
    ensures CheckAll(before + ["-"] + after, s) == Some(true) <==> CheckAll(before + after, s) == Some(true)
  {
    var q0, q1 := before + ["-"] + after, before + after;
    CheckAllMeaning(q0, s);
    CheckAllMeaning(q1, s);
    assert forall i :: 0 <= i < |before| ==> q0[i] == q1[i] == before[i];
    assert forall i :: 0 <= i < |after| ==> q0[|before| + 1 + i] == q1[|before| + i] == after[i];
    if Satisfies(q1, s) {
      forall i | 0 <= i < |q0| ensures |q0[i]| > 0 && Admits(q0[i], s) {
        if i > |before| { assert q0[i] == q1[i - 1]; }
      }
    }
    if Satisfies(q0, s) {
      forall i | 0 <= i < |q1| ensures |q1[i]| > 0 && Admits(q1[i], s) {
        if i >= |before| { assert q1[i] == q0[i + 1]; }
      }
    }
  }

  // ---------------------------------------------------------------------------
  // Filtering and sorting

  /** The library entries checkall accepts, in library order, duplicates kept. */
  function Selected(lib: seq<string>, terms: seq<string>): seq<string> {
    if |lib| == 0 then []
    else Selected(lib[..|lib| - 1], terms) + (if CheckAll(terms, Last(lib)) == Some(true) then [Last(lib)] else [])
  }

  /**
   * Every accepted entry is kept as often as it occurs in the library, and no other
   * entry is kept.
   */
  lemma {:induction false} SelectedCount(lib: seq<string>, terms: seq<string>, x: string)
    ensures multiset(Selected(lib, terms))[x] ==
      if Satisfies(terms, x) then multiset(lib)[x] else 0
  {
    CheckAllMeaning(terms, x);
    if |lib| > 0 {
      var init := lib[..|lib| - 1];
      SelectedCount(init, terms, x);
      assert lib == init + [Last(lib)];
    }
  }

  /** Python 2 str ordering: lexicographic by character code, a proper prefix first. */
  predicate Below(a: string, b: string) {
    |a| == 0 || (|b| > 0 && (a[0] < b[0] || (a[0] == b[0] && Below(a[1..], b[1..]))))
  }

  lemma {:induction false} BelowReflexive(a: string)
    ensures Below(a, a)
  {
    if |a| > 0 { BelowReflexive(a[1..]); }
  }

  lemma {:induction false} BelowTotal(a: string, b: string)
    ensures Below(a, b) || Below(b, a)
  {
    if |a| > 0 && |b| > 0 && a[0] == b[0] { BelowTotal(a[1..], b[1..]); }
  }

  lemma {:induction false} BelowAntisymmetric(a: string, b: string)
    requires Below(a, b) && Below(b, a)
    ensures a == b
  {
    if |a| > 0 && |b| > 0 {
      BelowAntisymmetric(a[1..], b[1..]);
      assert a == [a[0]] + a[1..] && b == [b[0]] + b[1..];
    }
  }

  lemma {:induction false} BelowTransitive(a: string, b: string, c: string)
    requires Below(a, b) && Below(b, c)
    ensures Below(a, c)
  {
    if |a| > 0 && |b| > 0 && |c| > 0 && a[0] == b[0] == c[0] {
      BelowTransitive(a[1..], b[1..], c[1..]);
    }
  }

  predicate Sorted(s: seq<string>) {
    forall i :: 0 < i < |s| ==> Below(s[i - 1], s[i])
  }

  /** Insert x into a sorted list, before the first element it is below. */
  function Insert(x: string, s: seq<string>): (r: seq<string>)
    requires Sorted(s)
    ensures |r| == |s| + 1 && Sorted(r)
    ensures multiset(r) == multiset(s) + multiset{x}
    ensures r[0] == x || (|s| > 0 && r[0] == s[0])
  {
    if |s| == 0 then [x]
    else if Below(x, s[0]) then [x] + s
    else
      BelowTotal(x, s[0]);
      assert s == [s[0]] + s[1..];
      [s[0]] + Insert(x, s[1..])
  }

  /** list.sort(): a sorted rearrangement (insertion sort; any sort gives the same list). */
  function Sort(s: seq<string>): (r: seq<string>)
    ensures Sorted(r) && multiset(r) == multiset(s)
  {
    if |s| == 0 then []
    else
      assert s == [s[0]] + s[1..];
      Insert(s[0], Sort(s[1..]))
  }

  lemma {:induction false} SortedFirstIsLeast(s: seq<string>, i: nat)
    requires Sorted(s) && i < |s|
    ensures Below(s[0], s[i])
  {
    if i == 0 {
      BelowReflexive(s[0]);
    } else {
      SortedFirstIsLeast(s, i - 1);
      BelowTransitive(s[0], s[i - 1], s[i]);
    }
  }

  /**
   * A sorted permutation is unique, so the model's sort returns exactly the list
   * Python's list.sort() leaves.
   */
  lemma {:induction false} SortedUnique(a: seq<string>, b: seq<string>)
    requires Sorted(a) && Sorted(b) && multiset(a) == multiset(b)
    ensures a == b
  {
    if |a| == 0 {
      assert |multiset(b)| == 0;
    } else {
      SameLeast(a, b);
      TailMultiset(a);
      TailMultiset(b);
      SortedTail(a);
      SortedTail(b);
      SortedUnique(a[1..], b[1..]);
      assert a == [a[0]] + a[1..] && b == [b[0]] + b[1..];
    }
  }

  /** Two sorted lists with the same elements start with the same element. */
  lemma SameLeast(a: seq<string>, b: seq<string>)
    requires Sorted(a) && Sorted(b) && multiset(a) == multiset(b) && |a| > 0
    ensures |b| > 0 && a[0] == b[0]
  {
    assert a[0] in multiset(a);
    assert |b| > 0 by { assert a[0] in multiset(b); }
    assert b[0] in multiset(b);
    var j :| 0 <= j < |b| && b[j] == a[0];
    var k :| 0 <= k < |a| && a[k] == b[0];
    SortedFirstIsLeast(b, j);
    SortedFirstIsLeast(a, k);
    BelowAntisymmetric(a[0], b[0]);
  }

  /** Dropping the head takes one copy of it out of the multiset. */
  lemma TailMultiset(a: seq<string>)
    requires |a| > 0
    ensures multiset(a[1..]) == multiset(a) - multiset{a[0]}
  {
    assert a == [a[0]] + a[1..];
    assert multiset(a) == multiset{a[0]} + multiset(a[1..]);
  }

  lemma SortedTail(a: seq<string>)
    requires |a| > 0 && Sorted(a)
    ensures Sorted(a[1..])
  {
    assert forall i :: 0 < i < |a| - 1 ==> a[1..][i - 1] == a[i] && a[1..][i] == a[i + 1];
  }

  /** The sorted list of library entries the terms select. */
  function MatchSet(lib: seq<string>, terms: seq<string>): seq<string> {
    Sort(Selected(lib, terms))
  }

  /** The match list holds exactly the library entries that satisfy every term. */
  lemma MatchSetMembers(lib: seq<string>, terms: seq<string>, x: string)
    ensures x in MatchSet(lib, terms) <==> x in lib && Satisfies(terms, x)
  {
    SelectedCount(lib, terms, x);
    assert x in MatchSet(lib, terms) <==> multiset(MatchSet(lib, terms))[x] > 0;
    assert x in lib <==> multiset(lib)[x] > 0;
  }

  /** The quote-blocking loop at the head of matches. */
  method QuoteBlock(args: seq<string>) returns (terms: seq<string>)
    ensures terms == Terms(args)
  {
    terms := [];
    var quote := false;
    var s := "";
    var i := 0;
    while i < |args|
      invariant 0 <= i <= |args|
      invariant terms + TermsFrom(args[i..], quote, s) == Terms(args)
    {
      var arg := args[i];
      assert args[i..][0] == arg && args[i..][1..] == args[i + 1..];
      ghost var rest := args[i + 1..];
      if StartsWithQuote(arg) && EndsWithQuote(arg) {
        assert TermsFrom(args[i..], quote, s) == [Unquote(arg)] + TermsFrom(rest, quote, s);
        assert (terms + [Unquote(arg)]) + TermsFrom(rest, quote, s) == terms + ([Unquote(arg)] + TermsFrom(rest, quote, s));
        terms := terms + [Unquote(arg)];
      } else if StartsWithQuote(arg) {
        assert TermsFrom(args[i..], quote, s) == TermsFrom(rest, true, s + arg[1..]);
        quote := true;
        s := s + arg[1..];
      } else if EndsWithQuote(arg) {
        ghost var t := s + " " + arg[..|arg| - 1];
        assert TermsFrom(args[i..], quote, s) == [t] + TermsFrom(rest, false, "");
        assert (terms + [t]) + TermsFrom(rest, false, "") == terms + ([t] + TermsFrom(rest, false, ""));
        quote := false;
        s := s + " " + arg[..|arg| - 1];
        terms := terms + [s];
        s := "";
      } else if quote {
        assert TermsFrom(args[i..], quote, s) == TermsFrom(rest, true, s + " " + arg);
        s := s + " " + arg;
      } else {
        assert TermsFrom(args[i..], quote, s) == [arg] + TermsFrom(rest, false, s);
        assert (terms + [arg]) + TermsFrom(rest, false, s) == terms + ([arg] + TermsFrom(rest, false, s));
        terms := terms + [arg];
      }
      assert terms + TermsFrom(rest, quote, s) == Terms(args);
      i := i + 1;
    }
    if quote {
      terms := terms + [RemoveQuotes(s)];
    }
  }

  /**
   * matches(lib, args): the library entries that satisfy every term of the quote-blocked
   * query, each as often as it occurs in lib, sorted ascending.
   */
  method Matches(lib: seq<string>, args: seq<string>) returns (matches: seq<string>)
    ensures matches == MatchSet(lib, Terms(args))
    ensures Sorted(matches)
    ensures forall x :: multiset(matches)[x] == if Satisfies(Terms(args), x) then multiset(lib)[x] else 0
  {
    var terms := QuoteBlock(args);
    var found: seq<string> := [];
    var j := 0;
    while j < |lib|
      invariant 0 <= j <= |lib|
      invariant found == Selected(lib[..j], terms)
    {
      assert lib[..j + 1][..j] == lib[..j];
      if CheckAll(terms, lib[j]) == Some(true) {
        found := found + [lib[j]];
      }
      j := j + 1;
    }
    assert lib[..|lib|] == lib;
    matches := Sort(found);
    forall x ensures multiset(matches)[x] == if Satisfies(terms, x) then multiset(lib)[x] else 0 {
      SelectedCount(lib, terms, x);
    }
  }
}
