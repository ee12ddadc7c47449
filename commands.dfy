/**
 * The commands built on the matcher and the bookmark store: opening a directory as
 * a playlist (with an optional trailing track number) or a single file, which sets or
 * clears the last played playlist; bookmarking that playlist; and resuming a bookmark,
 * which re-opens its directory through the same matcher and seeks to its time. The
 * player's answers (whether an item opened, the position, the time, the file) are
 * parameters.
 */
module Commands {
  import opened Common
  import opened Text
  import opened Clock
  import opened Query
  import opened PathTree
  import opened Bookmarks

  /** last_played: the player id and directory of the playlist opened last. */
  datatype Playlist = Playlist(pid: int, path: string)

  /**
   * The argument handling of files: when the last space-separated word is an integer n,
   * the other words are the query and playback starts at position n - 1 (0-based);
   * otherwise all words are the query and playback starts at 0.
   */
  function TrackArgs(args: string): (seq<string>, int) {
    var w := Split(args, ' ');
    match ParseInt(Last(w))
    case None => (w, 0)
    case Some(n) => (w[..|w| - 1], n - 1)
  }

  /** A query followed by a space and str(n) starts at position n - 1 with that query. */
  lemma TrackArgsWithNumber(query: string, n: int)
    ensures TrackArgs(query + " " + IntStr(n)) == (Split(query, ' '), n - 1)
  {
    var num := IntStr(n);
    var w := Split(query + " " + num, ' ');
    assert w == Split(query, ' ') + [num] by {
      NumberHasNoColon(n, 0);
      SplitNoSeparator(num, ' ');
      SplitConcat(query, num, ' ');
    }
    assert Last(w) == num;
    assert ParseInt(num) == Some(n) by { ParseIntStr(n); }
    assert w[..|w| - 1] == Split(query, ' ');
  }

  /** Splitting a quoted path on spaces gives the tokens of the phrase of its words. */
  lemma QuotedSplit(path: string)
    ensures Split("\"" + path + "\"", ' ') == Tokens(Phrase(Split(path, ' ')))
  {
    var ws := Split(path, ' ');
    var inner := Split(path + ['"'], ' ');
    QuotedSplitShape(path);
    if |ws| == 1 {
      assert inner == [ws[0] + ['"']];
      assert ['"'] + (ws[0] + ['"']) == "\"" + ws[0] + "\"";
    } else {
      QuotedSplitMany(ws, inner, Split("\"" + path + "\"", ' '));
    }
  }

  /** The split of a quoted path: the split of the path, with '"' added at both ends. */
  lemma QuotedSplitShape(path: string)
    ensures var ws, inner := Split(path, ' '), Split(path + ['"'], ' ');
      && Split("\"" + path + "\"", ' ') == [['"'] + inner[0]] + inner[1..]
      && inner == ws[..|ws| - 1] + [Last(ws) + ['"']]
  {
    assert "\"" + path + "\"" == ['"'] + (path + ['"']);
    SplitCons('"', path + ['"'], ' ');
    SplitSnoc(path, '"', ' ');
  }

  lemma QuotedSplitMany(ws: seq<string>, inner: seq<string>, q: seq<string>)
    requires |ws| >= 2
    requires inner == ws[..|ws| - 1] + [Last(ws) + ['"']]
    requires q == [['"'] + inner[0]] + inner[1..]
    ensures q == Tokens(Phrase(ws))
  {
    assert inner[0] == ws[0];
    assert inner[1..] == ws[1..|ws| - 1] + [Last(ws) + ['"']];
  }

  /** A path that survives quoting: no '"' in it, and no space at either end. */
  predicate Quotable(path: string) {
    '"' !in path && (|path| > 0 ==> path[0] != ' ' && Last(path) != ' ')
  }

  /**
   * The words of a quoted path are read back by quote blocking as the path itself,
   * provided the path holds no '"' and neither starts nor ends with a space.
   */
  lemma QuotedPathTerms(path: string)
    requires Quotable(path)
    ensures Terms(Split("\"" + path + "\"", ' ')) == [path]
  {
    var ws := Split(path, ' ');
    SplitKeepsOut(path, ' ', '"');
    if |ws| >= 2 {
      assert |path| > 0;
      if ws[0] == "" { SplitFirstEmpty(path, ' '); }
      if Last(ws) == "" { SplitLastEmpty(path, ' '); }
    }
    var p := Phrase(ws);
    assert WellFormed(p);
    QuotedSplit(path);
    TermsOfPart(p, []);
    assert Tokens(p) + [] == Tokens(p);
    JoinSplit(path, ' ');
  }

  /**
   * resume's trailing "next": the stripped arguments are split on spaces and a final
   * "next" is dropped, the other words joined back as the name; without it the name is
   * the arguments as given.
   */
  function ResumeArgs(args: string): (bool, string) {
    var opts := Split(Strip(args), ' ');
    if Last(opts) == "next" then (true, Join(opts[..|opts| - 1], ' ')) else (false, args)
  }

  /** "name next" asks for the entry after the bookmarked one, of bookmark name. */
  lemma ResumeArgsNext(name: string)
    requires |name| > 0 && !IsSpace(name[0])
    ensures ResumeArgs(name + " next") == (true, name)
  {
    var a := name + " next";
    assert a == name + [' '] + "next";
    assert a[0] == name[0] && a[|a| - 1] == 't';
    StripNoop(a);
    SplitNoSeparator("next", ' ');
    SplitConcat(name, "next", ' ');
    var opts := Split(a, ' ');
    assert opts == Split(name, ' ') + ["next"];
    assert opts[..|opts| - 1] == Split(name, ' ');
    JoinSplit(name, ' ');
  }

  /** A bare "next" resumes the most recent bookmark at its next entry. */
  lemma ResumeArgsBareNext()
    ensures ResumeArgs("next") == (true, "")
  {
    StripNoop("next");
    SplitNoSeparator("next", ' ');
  }

  /** The query resume hands to audios or videos: the quoted path and the 1-based track. */
  function ResumeRequest(path: string, pos: int): string {
    "\"" + path + "\" " + IntStr(pos + 1)
  }

  /**
   * The request resume builds is read by files as exactly the bookmarked directory and
   * the bookmarked (0-based) position.
   */
  lemma ResumeRequestParses(path: string, pos: int)
    requires Quotable(path)
    ensures TrackArgs(ResumeRequest(path, pos)).1 == pos
    ensures Terms(TrackArgs(ResumeRequest(path, pos)).0) == [path]
  {
    var q := "\"" + path + "\"";
    var num := IntStr(pos + 1);
    assert ResumeRequest(path, pos) == q + " " + num;
    assert TrackArgs(q + " " + num) == (Split(q, ' '), pos) by { TrackArgsWithNumber(q, pos + 1); }
    assert Terms(Split(q, ' ')) == [path] by { QuotedPathTerms(path); }
  }

  /**
   * A library entry that satisfies the one-term query of its own path is matched, and
   * the playlist reduces to it when every entry containing the path (ignoring case)
   * lies under it.
   */
  lemma PathQueryFindsPath(dirs: seq<string>, path: string)
    requires path in dirs && |path| > 0 && path[0] != '-'
    requires forall x :: x in dirs && ContainsIgnoringCase(x, path) ==> path <= x
    ensures path in MatchSet(dirs, [path])
    ensures ReduceTree(MatchSet(dirs, [path])) == [path]
  {
    var m := MatchSet(dirs, [path]);
    assert Contains(Lower(path), Lower(path));
    assert Satisfies([path], path);
    MatchSetMembers(dirs, [path], path);
    var i :| 0 <= i < |m| && m[i] == path;
    forall j | 0 <= j < |m| ensures path <= m[j] {
      MatchSetMembers(dirs, [path], m[j]);
      assert Admits([path][0], m[j]);
    }
    ReduceTreeCollapses(m, i);
  }

  /** The one directory a match list reduces to is a matching library entry. */
  lemma SingleRoot(dirs: seq<string>, terms: seq<string>)
    requires |MatchSet(dirs, terms)| > 0 && |ReduceTree(MatchSet(dirs, terms))| == 1
    ensures ReduceTree(MatchSet(dirs, terms))[0] in dirs
    ensures Satisfies(terms, ReduceTree(MatchSet(dirs, terms))[0])
  {
    var m := MatchSet(dirs, terms);
    ReduceTreeSubset(m);
    assert ReduceTree(m)[0] in ReduceTree(m);
    MatchSetMembers(dirs, terms, ReduceTree(m)[0]);
  }

  /** What files and file answer. */
  datatype Reply =
    | NoMatches
    | Several(matches: seq<string>, listed: bool)
    | OpenFailed(path: string)
    | PlaylistFrom(path: string, num: int)
    | PlayingFile(path: string)

  /**
   * What the bookmark command answers. RemoveRaised: bm_remove found no such bookmark
   * and the not-found reply that follows refers to an unbound name, so it raises.
   */
  datatype BookmarkReply =
    | NoPlaylist
    | Added(name: string, rec: Record)
    | RemoveUsage
    | Removed
    | RemoveRaised
    | Show

  /** Whether resume seeks, and where to. */
  datatype Seek = NoSeek | SeekTo(t: Time) | BadTime

  /** What resume answers; NoneName is the TypeError of building a reply from None. */
  datatype ResumeReply =
    | NoBookmarks
    | NoneName
    | NoSuchBookmark(name: string)
    | InvalidPid(name: string, pid: int)
    | Resumed(name: string, request: string, files: Reply, seek: Seek)

  class Sibyl {
    /** self.last_played */
    var lastPlayed: Option<Playlist>
    /** max_matches: longer match lists are counted, not listed (below 1: always listed). */
    const maxMatches: int
    /** The audio and video directories of the library. */
    const audioDirs: seq<string>
    const videoDirs: seq<string>
    /** The bookmark dict and file. */
    const bookmarks: BookmarkStore

    constructor(maxMatches: int, audioDirs: seq<string>, videoDirs: seq<string>, bookmarks: BookmarkStore)
      ensures this.maxMatches == maxMatches && this.bookmarks == bookmarks
      ensures this.audioDirs == audioDirs && this.videoDirs == videoDirs
      ensures lastPlayed == None
    {
      this.maxMatches := maxMatches;
      this.audioDirs := audioDirs;
      this.videoDirs := videoDirs;
      this.bookmarks := bookmarks;
      lastPlayed := None;
    }

    /** Whether a match list of this length is listed in the reply. */
    predicate Listed(n: nat)
      reads this
    {
      maxMatches < 1 || n <= maxMatches
    }

    /**
     * files: match the query, reduce the matches to their common root, and open the one
     * directory left as a playlist at the requested position, remembering it in
     * last_played; `accepted` is whether the player accepted the directory.
     */
    method Files(args: string, dirs: seq<string>, pid: int, accepted: bool) returns (reply: Reply)
      modifies this
      ensures var m := MatchSet(dirs, Terms(TrackArgs(args).0));
        && (reply.NoMatches? <==> m == [])
        && (reply.Several? ==>
              m != [] && reply.matches == ReduceTree(m) && |reply.matches| > 1 && reply.listed == Listed(|reply.matches|))
        && (reply.OpenFailed? || reply.PlaylistFrom? ==> m != [] && ReduceTree(m) == [reply.path])
      ensures reply.NoMatches? || reply.Several? || reply.OpenFailed? || reply.PlaylistFrom?
      ensures reply.OpenFailed? || reply.PlaylistFrom? ==>
        reply.path in dirs && Satisfies(Terms(TrackArgs(args).0), reply.path)
      ensures reply.OpenFailed? ==> !accepted
      ensures reply.PlaylistFrom? ==> accepted && reply.num == TrackArgs(args).1
      ensures lastPlayed == if reply.PlaylistFrom? then Some(Playlist(pid, reply.path)) else old(lastPlayed)
    {
      var name := TrackArgs(args).0;
      var all := Matches(dirs, name);
      if |all| == 0 {
        return NoMatches;
      }
      var m := ReduceTree(all);
      if |m| > 1 {
        return Several(m, Listed(|m|));
      }
      ReduceTreeSubset(all);
      SingleRoot(dirs, Terms(name));
      assert m == [m[0]];
      if !accepted {
        return OpenFailed(m[0]);
      }
      lastPlayed := Some(Playlist(pid, m[0]));
      reply := PlaylistFrom(m[0], TrackArgs(args).1);
    }

    /**
     * file: match the query against single files and play the one match, which clears
     * last_played; `accepted` is whether the player accepted the file.
     */
    method File(args: string, dirs: seq<string>, accepted: bool) returns (reply: Reply)
      modifies this
      ensures var m := MatchSet(dirs, Terms(Split(args, ' ')));
        && (reply.NoMatches? <==> m == [])
        && (reply.Several? ==> reply.matches == m && |m| > 1 && reply.listed == Listed(|m|))
        && (reply.OpenFailed? || reply.PlayingFile? ==> m == [reply.path])
      ensures reply.NoMatches? || reply.Several? || reply.OpenFailed? || reply.PlayingFile?
      ensures reply.OpenFailed? ==> !accepted
      ensures reply.PlayingFile? ==> accepted
      ensures lastPlayed == if reply.PlayingFile? then None else old(lastPlayed)
    {
      var m := Matches(dirs, Split(args, ' '));
      if |m| == 0 {
        return NoMatches;
      }
      if |m| > 1 {
        return Several(m, Listed(|m|));
      }
      assert m == [m[0]];
      if !accepted {
        return OpenFailed(m[0]);
      }
      lastPlayed := None;
      reply := PlayingFile(m[0]);
    }

    /**
     * bookmark set and bookmark remove (any other first word shows bookmarks). set
     * needs a last played playlist; the name is the word after "set", or else the
     * playlist's directory; the record holds the playlist and the player's position,
     * time (as time2str writes it), file and the current time `add`. It is put in the
     * dict and then written with bm_update. remove with a name is bm_remove.
     */
    method Bookmark(args: string, pos: int, t: Time, add: int, file: string) returns (reply: BookmarkReply)
      modifies bookmarks
      ensures var w := Split(args, ' ');
        w[0] != "set" && !(w[0] == "remove" && |w| > 1) ==>
          && reply == (if w[0] == "remove" then RemoveUsage else Show)
          && bookmarks.store == old(bookmarks.store) && bookmarks.lines == old(bookmarks.lines)
      ensures var w := Split(args, ' ');
        w[0] == "set" && lastPlayed.None? ==>
          && reply == NoPlaylist
          && bookmarks.store == old(bookmarks.store) && bookmarks.lines == old(bookmarks.lines)
      ensures var w := Split(args, ' ');
        w[0] == "set" && lastPlayed.Some? ==>
          var name := if |w| > 1 then w[1] else lastPlayed.value.path;
          var rec := Record(lastPlayed.value.path, lastPlayed.value.pid, pos, file, Time2Str(t), add);
          && reply == Added(name, rec)
          && bookmarks.store == (if name == "*" then map[name := rec] else old(bookmarks.store)[name := rec])
          && bookmarks.lines ==
               AppendText(if name == "*" then [] else KeepOthers(old(bookmarks.lines), name), Format(name, rec) + "\n")
          && (old(bookmarks.Valid()) && Storable(name, rec) ==> bookmarks.Valid())
      ensures var w := Split(args, ' ');
        w[0] == "remove" && |w| > 1 && w[1] != "*" ==>
          && (reply == Removed <==> w[1] in old(bookmarks.store))
          && (reply == RemoveRaised <==> w[1] !in old(bookmarks.store))
          && bookmarks.store == old(bookmarks.store) - {w[1]}
          && bookmarks.lines == (if w[1] in old(bookmarks.store) then KeepOthers(old(bookmarks.lines), w[1])
                                 else old(bookmarks.lines))
      ensures var w := Split(args, ' ');
        w[0] == "remove" && |w| > 1 && w[1] == "*" ==>
          reply == Removed && bookmarks.store == map[] && bookmarks.lines == []
      ensures old(bookmarks.Valid()) && Split(args, ' ')[0] != "set" ==> bookmarks.Valid()
    {
      var w := Split(args, ' ');
      if w[0] == "set" {
        if lastPlayed.None? {
          return NoPlaylist;
        }
        var name := lastPlayed.value.path;
        if |w| > 1 {
          name := w[1];
        }
        var rec := Record(lastPlayed.value.path, lastPlayed.value.pid, pos, file, Time2Str(t), add);
        Store(name, rec);
        return Added(name, rec);
      } else if w[0] == "remove" {
        if |w| == 1 {
          return RemoveUsage;
        }
        var removed := bookmarks.Remove(w[1]);
        reply := if removed then Removed else RemoveRaised;
      } else {
        reply := Show;
      }
    }

    /** bookmark set's store step: put the record in the dict, then bm_update. */
    method Store(name: string, rec: Record)
      modifies bookmarks
      ensures bookmarks.store == (if name == "*" then map[name := rec] else old(bookmarks.store)[name := rec])
      ensures bookmarks.lines ==
        AppendText(if name == "*" then [] else KeepOthers(old(bookmarks.lines), name), Format(name, rec) + "\n")
      ensures old(bookmarks.Valid()) && Storable(name, rec) ==> bookmarks.Valid()
    {
      ghost var s0, l0 := bookmarks.store, bookmarks.lines;
      bookmarks.store := bookmarks.store[name := rec];
      assert name in bookmarks.store;
      var _ := bookmarks.Update(name, rec);
      assert s0[name := rec][name := rec] == s0[name := rec];
      if Mirrors(l0, s0) && Storable(name, rec) {
        if name == "*" {
          MirrorsAppend([], map[], name, rec);
        } else {
          MirrorsReplace(l0, s0, name, rec);
        }
      }
    }

    /**
     * resume: with no bookmarks there is nothing to resume; an optional trailing "next"
     * moves one entry further; the name is the remaining argument or, when there is
     * none, the most recent bookmark. Its directory is re-opened through audios (pid 0)
     * or videos (pid 1) with the query ResumeRequest, and, unless "next" was given,
     * playback seeks to the stored time.
     */
    method Resume(args: string, accepted: bool) returns (reply: ResumeReply)
      modifies this
      ensures (reply == NoBookmarks) <==> |bookmarks.store| == 0
      ensures reply.NoneName? ==>
        ResumeArgs(args).1 == "" && forall k :: k in bookmarks.store ==> bookmarks.store[k].add <= 0
      ensures reply.NoSuchBookmark? ==>
        reply.name == ResumeArgs(args).1 && reply.name !in bookmarks.store
      ensures reply.InvalidPid? || reply.Resumed? ==>
        && reply.name in bookmarks.store
        && (ResumeArgs(args).1 != "" ==> reply.name == ResumeArgs(args).1)
        && (ResumeArgs(args).1 == "" ==>
              bookmarks.store[reply.name].add > 0
              && forall k :: k in bookmarks.store ==> bookmarks.store[k].add <= bookmarks.store[reply.name].add)
      ensures reply.InvalidPid? ==>
        reply.pid == bookmarks.store[reply.name].pid && reply.pid != 0 && reply.pid != 1
      ensures reply.Resumed? ==>
        var rec, next := bookmarks.store[reply.name], ResumeArgs(args).0;
        && (rec.pid == 0 || rec.pid == 1)
        && reply.request == ResumeRequest(rec.path, if next then rec.pos + 1 else rec.pos)
        && reply.seek == (if next then NoSeek else if SeekTime(rec.time).Some? then SeekTo(SeekTime(rec.time).value) else BadTime)
        && (reply.files.PlaylistFrom? ==> lastPlayed == Some(Playlist(rec.pid, reply.files.path)))
      ensures reply.Resumed? && Quotable(bookmarks.store[reply.name].path) ==>
        var rec, next := bookmarks.store[reply.name], ResumeArgs(args).0;
        var m := MatchSet(if rec.pid == 0 then audioDirs else videoDirs, [rec.path]);
        && (reply.files.NoMatches? <==> m == [])
        && (reply.files.OpenFailed? || reply.files.PlaylistFrom? ==> ReduceTree(m) == [reply.files.path])
        && (reply.files.PlaylistFrom? ==> reply.files.num == if next then rec.pos + 1 else rec.pos)
      ensures !(reply.Resumed? && reply.files.PlaylistFrom?) ==> lastPlayed == old(lastPlayed)
    {
      if |bookmarks.store| == 0 {
        return NoBookmarks;
      }
      var next, arg := ResumeArgs(args).0, ResumeArgs(args).1;
      var name := bookmarks.Recent();
      if |arg| > 0 {
        name := Some(arg);
      }
      if name.None? {
        return NoneName;
      }
      if name.value !in bookmarks.store {
        return NoSuchBookmark(name.value);
      }
      var rec := bookmarks.store[name.value];
      var pos := rec.pos;
      if next {
        pos := pos + 1;
      }
      if rec.pid != 0 && rec.pid != 1 {
        return InvalidPid(name.value, rec.pid);
      }
      var files := Reopen(rec.path, rec.pid, pos, accepted);
      var seek := NoSeek;
      if !next {
        var s := SeekTime(rec.time);
        seek := if s.Some? then SeekTo(s.value) else BadTime;
      }
      reply := Resumed(name.value, ResumeRequest(rec.path, pos), files, seek);
    }

    /**
     * The re-opening step of resume: files on the bookmark's request, through audios
     * (pid 0) or videos (pid 1). For a quotable path the match is that of the path
     * alone and playback starts at the requested position.
     */
    method Reopen(path: string, pid: int, pos: int, accepted: bool) returns (files: Reply)
      requires pid == 0 || pid == 1
      modifies this
      ensures Quotable(path) ==>
        var m := MatchSet(if pid == 0 then audioDirs else videoDirs, [path]);
        && (files.NoMatches? <==> m == [])
        && (files.OpenFailed? || files.PlaylistFrom? ==> ReduceTree(m) == [files.path])
        && (files.PlaylistFrom? ==> files.num == pos)
      ensures lastPlayed == if files.PlaylistFrom? then Some(Playlist(pid, files.path)) else old(lastPlayed)
    {
      var request := ResumeRequest(path, pos);
      if Quotable(path) {
        ResumeRequestParses(path, pos);
      }
      if pid == 0 {
        files := Files(request, audioDirs, 0, accepted);
      } else {
        files := Files(request, videoDirs, 1, accepted);
      }
    }
  }
}
