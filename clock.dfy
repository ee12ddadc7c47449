/**
 * Playback times as the bot writes and reads them: time2str renders the player's
 * time dict, sec2str first splits a number of seconds into hours, minutes and
 * seconds, and the seek command parses "[h:]m:ss" back into the three fields.
 */
module Clock {
  import opened Common
  import opened Text

  /** The player's time dict {'hours', 'minutes', 'seconds'}. */
  datatype Time = Time(hours: int, minutes: int, seconds: int)

  /** Total number of seconds a time stands for. */
  function Seconds(t: Time): int {
    t.hours * 3600 + t.minutes * 60 + t.seconds
  }

  /**
   * time2str: "h:mm:ss" when hours > 0, otherwise "m:ss"; seconds, and minutes after
   * an hour field, are zero-filled to two characters.
   */
  function Time2Str(t: Time): string {
    if t.hours > 0 then
      IntStr(t.hours) + ":" + ZFill(IntStr(t.minutes), 2) + ":" + ZFill(IntStr(t.seconds), 2)
    else
      IntStr(t.minutes) + ":" + ZFill(IntStr(t.seconds), 2)
  }

  /**
   * The split sec2str performs with Python 2 integer (floor) division:
   * h = s / 3600, then m = (s - 3600 h) / 60, then what is left.
   */
  function Decompose(total: int): (t: Time)
    ensures Seconds(t) == total
    ensures 0 <= t.minutes < 60 && 0 <= t.seconds < 60
    ensures total >= 0 ==> t.hours >= 0
  {
    var h := total / 3600;
    var rest := total - 3600 * h;
    var m := rest / 60;
    Time(h, m, rest - 60 * m)
  }

  /** sec2str */
  function Sec2Str(total: int): string {
    Time2Str(Decompose(total))
  }

  /** Python's t[:k] for k in -1..|t|; a bound of -1 drops the last character. */
  function PyPrefix(t: string, k: int): string
    requires -1 <= k <= |t|
  {
    if k >= 0 then t[..k] else if |t| > 0 then t[..|t| - 1] else ""
  }

  /**
   * The seek command's parser: take the last space-separated word and read it with
   * SeekWord. Any int() failure is the ValueError the command reports (None here).
   */
  function SeekTime(args: string): Option<Time> {
    SeekWord(Last(Split(args, ' ')))
  }

  /**
   * One word of seek: the seconds after its last ':', and the minutes (and hours, when
   * there are two colons) before.
   */
  function SeekWord(t: string): Option<Time> {
    var c1 := Find(t, ':');
    var c2 := RFind(t, ':');
    var s := ParseInt(t[c2 + 1..]);
    if c1 == c2 then
      var m := ParseInt(PyPrefix(t, c1));
      if s.Some? && m.Some? then Some(Time(0, m.value, s.value)) else None
    else
      var m := ParseInt(t[c1 + 1..c2]);
      var h := ParseInt(t[..c1]);
      if s.Some? && m.Some? && h.Some? then Some(Time(h.value, m.value, s.value)) else None
  }

  lemma FindAt(s: string, c: char, k: nat)
    requires k < |s| && s[k] == c && c !in s[..k]
    ensures Find(s, c) == k
  {
  }

  lemma RFindAt(s: string, c: char, k: nat)
    requires k < |s| && s[k] == c && c !in s[k + 1..]
    ensures RFind(s, c) == k
  {
  }

  /** A zero-filled str(int) holds neither a colon nor a space. */
  lemma NumberHasNoColon(x: int, width: nat)
    ensures ':' !in ZFill(IntStr(x), width) && ' ' !in ZFill(IntStr(x), width)
    ensures ':' !in IntStr(x) && ' ' !in IntStr(x)
  {
    ZFillIntStrChars(x, width);
    ZFillIntStrChars(x, 0);
  }

  /**
   * A word with its first colon at c1 and its last at c2 > c1 is read as h:m:s from
   * the parts a, b and c around them.
   */
  lemma SeekWordAt(t: string, c1: nat, c2: nat, a: string, b: string, c: string)
    requires c1 < c2 < |t| && t[c1] == ':' && t[c2] == ':'
    requires t[..c1] == a && t[c1 + 1..c2] == b && t[c2 + 1..] == c
    requires ':' !in a && ':' !in c
    ensures SeekWord(t) ==
      var h, m, s := ParseInt(a), ParseInt(b), ParseInt(c);
      if s.Some? && m.Some? && h.Some? then Some(Time(h.value, m.value, s.value)) else None
  {
    FindAt(t, ':', c1);
    RFindAt(t, ':', c2);
  }

  /** A word with no space in it is the one word seek reads. */
  lemma SeekTimeWord(t: string)
    requires ' ' !in t
    ensures SeekTime(t) == SeekWord(t)
  {
    SplitNoSeparator(t, ' ');
    var w := Split(t, ' ');
    assert w == [t];
    assert Last(w) == t;
  }

  /** seek's word "a:b:c", where no part holds a colon, parses the three parts. */
  lemma SeekThreeFields(a: string, b: string, c: string)
    requires ':' !in a && ':' !in b && ':' !in c
    ensures SeekWord(a + ":" + b + ":" + c) ==
      var h, m, s := ParseInt(a), ParseInt(b), ParseInt(c);
      if s.Some? && m.Some? && h.Some? then Some(Time(h.value, m.value, s.value)) else None
  {
    ThreeFieldSlices(a, b, c);
    SeekWordAt(a + ":" + b + ":" + c, |a|, |a| + |b| + 1, a, b, c);
  }

  /** Where the parts and colons of "a:b:c" sit. */
  lemma ThreeFieldSlices(a: string, b: string, c: string)
    ensures var str := a + ":" + b + ":" + c;
      && str[..|a|] == a && str[|a| + 1..|a| + |b| + 1] == b && str[|a| + |b| + 2..] == c
      && str[|a|] == ':' && str[|a| + |b| + 1] == ':'
  {
    var str := a + ":" + b + ":" + c;
    assert str[..|a|] == a;
    assert str[|a| + |b| + 2..] == c;
    assert str[|a| + 1..|a| + |b| + 1] == b;
  }

  /** seek's word "a:c", where no part holds a colon, parses minutes and seconds. */
  lemma SeekTwoFields(a: string, c: string)
    requires ':' !in a && ':' !in c
    ensures SeekWord(a + ":" + c) ==
      var m, s := ParseInt(a), ParseInt(c);
      if s.Some? && m.Some? then Some(Time(0, m.value, s.value)) else None
  {
    var str := a + ":" + c;
    assert str[..|a|] == a;
    assert str[|a| + 1..] == c;
    FindAt(str, ':', |a|);
    RFindAt(str, ':', |a|);
  }

  /**
   * seek reads back exactly what time2str wrote (the resume command relies on this):
   * every field survives, except that hours <= 0 are not written and read as 0.
   */
  lemma SeekTimeInvertsTime2Str(t: Time)
    ensures SeekTime(Time2Str(t)) == Some(Time(if t.hours > 0 then t.hours else 0, t.minutes, t.seconds))
  {
    NumberHasNoColon(t.hours, 2);
    NumberHasNoColon(t.minutes, 2);
    NumberHasNoColon(t.seconds, 2);
    ParseIntZFill(t.seconds);
    var hr, mi, sec := IntStr(t.hours), ZFill(IntStr(t.minutes), 2), ZFill(IntStr(t.seconds), 2);
    if t.hours > 0 {
      ParseIntZFill(t.minutes);
      ParseIntStr(t.hours);
      assert Time2Str(t) == hr + ":" + mi + ":" + sec;
      assert ' ' !in hr + ":" + mi + ":" + sec;
      SeekTimeWord(Time2Str(t));
      SeekThreeFields(hr, mi, sec);
    } else {
      ParseIntStr(t.minutes);
      assert Time2Str(t) == IntStr(t.minutes) + ":" + sec;
      assert ' ' !in IntStr(t.minutes) + ":" + sec;
      SeekTimeWord(Time2Str(t));
      SeekTwoFields(IntStr(t.minutes), sec);
    }
  }

  /**
   * For a non-negative number of seconds, seek reads sec2str's output back as the
   * same number of seconds, with minutes and seconds below 60.
   */
  lemma SeekTimeInvertsSec2Str(total: int)
    requires total >= 0
    ensures SeekTime(Sec2Str(total)).Some?
    ensures var t := SeekTime(Sec2Str(total)).value;
      Seconds(t) == total && 0 <= t.minutes < 60 && 0 <= t.seconds < 60
  {
    SeekTimeInvertsTime2Str(Decompose(total));
  }
}
