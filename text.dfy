/**
 * The handful of Python `str` operations the bot's logic is built from, with the
 * semantics of CPython 2 on byte strings: `strip`, `split(sep)`, `sep.join`,
 * `lower` (ASCII), the substring test `needle in hay`, `str(int)`, `int(str)`,
 * `zfill`, `find` and `rfind`.
 */
module Text {
  import opened Common

  /** str.isspace() for one character: space, \t, \n, \r, \v, \f. */
  predicate IsSpace(c: char) {
    c == ' ' || c == '\t' || c == '\n' || c == '\r' || c as int == 11 || c as int == 12
  }

  /** s.lstrip() */
  function StripLeft(s: string): string {
    if |s| > 0 && IsSpace(s[0]) then StripLeft(s[1..]) else s
  }

  /** s.rstrip() */
  function StripRight(s: string): string {
    if |s| > 0 && IsSpace(s[|s| - 1]) then StripRight(s[..|s| - 1]) else s
  }

  /** s.strip() */
  function Strip(s: string): string {
    StripRight(StripLeft(s))
  }

  /** lstrip() keeps the suffix of s that starts at its first non-whitespace character. */
  lemma {:induction false} StripLeftShape(s: string)
    ensures var r := StripLeft(s);
      && |r| <= |s| && r == s[|s| - |r|..]
      && (|r| > 0 ==> !IsSpace(r[0]))
      && forall i :: 0 <= i < |s| - |r| ==> IsSpace(s[i])
  {
    if |s| > 0 && IsSpace(s[0]) {
      StripLeftShape(s[1..]);
    }
  }

  /** rstrip() keeps the prefix of s that ends at its last non-whitespace character. */
  lemma {:induction false} StripRightShape(s: string)
    ensures var r := StripRight(s);
      && |r| <= |s| && r == s[..|r|]
      && (|r| > 0 ==> !IsSpace(r[|r| - 1]))
      && forall i :: |r| <= i < |s| ==> IsSpace(s[i])
  {
    if |s| > 0 && IsSpace(s[|s| - 1]) {
      StripRightShape(s[..|s| - 1]);
    }
  }

  /** A string that starts and ends with a non-whitespace character is its own strip(). */
  lemma StripNoop(s: string)
    requires |s| > 0 && !IsSpace(s[0]) && !IsSpace(s[|s| - 1])
    ensures Strip(s) == s
  {
  }

  /** ... and stripping it with a newline appended gives it back. */
  lemma StripNewline(s: string)
    requires |s| > 0 && !IsSpace(s[0]) && !IsSpace(s[|s| - 1])
    ensures Strip(s + "\n") == s
  {
    var t := s + "\n";
    assert StripLeft(t) == t;
    assert t[..|t| - 1] == s;
    assert StripRight(t) == StripRight(s);
    assert StripRight(s) == s;
  }

  /** The last element of a non-empty sequence (Python's xs[-1]). */
  function Last<T>(xs: seq<T>): T
    requires |xs| > 0
  {
    xs[|xs| - 1]
  }

  /**
   * s.split(c) for a one-character separator: the pieces between separators, empty
   * ones included; never an empty list.
   */
  function Split(s: string, c: char): (r: seq<string>)
    ensures |r| >= 1
    ensures forall i :: 0 <= i < |r| ==> c !in r[i]
  {
    if |s| == 0 then [""]
    else
      var rest := Split(s[1..], c);
      if s[0] == c then [""] + rest else [[s[0]] + rest[0]] + rest[1..]
  }

  /** c.join(ws) */
  function Join(ws: seq<string>, c: char): string {
    if |ws| == 0 then ""
    else if |ws| == 1 then ws[0]
    else ws[0] + [c] + Join(ws[1..], c)
  }

  /** A string without the separator splits into itself. */
  lemma {:induction false} SplitNoSeparator(s: string, c: char)
    requires c !in s
    ensures Split(s, c) == [s]
  {
    if |s| > 0 {
      SplitNoSeparator(s[1..], c);
      assert [s[0]] + s[1..] == s;
    }
  }

  /** Splitting distributes over a separator: split(a + c + b) == split(a) + split(b). */
  lemma {:induction false} SplitConcat(a: string, b: string, c: char)
    ensures Split(a + [c] + b, c) == Split(a, c) + Split(b, c)
  {
    var s := a + [c] + b;
    if |a| == 0 {
      assert s[0] == c && s[1..] == b;
    } else {
      assert s[0] == a[0] && s[1..] == a[1..] + [c] + b;
      SplitConcat(a[1..], b, c);
    }
  }

  /** join undoes split: c.join(s.split(c)) == s. */
  lemma {:induction false} JoinSplit(s: string, c: char)
    ensures Join(Split(s, c), c) == s
  {
    if |s| > 0 {
      var rest := Split(s[1..], c);
      JoinSplit(s[1..], c);
      if s[0] == c {
        assert Split(s, c) == [""] + rest;
        assert ([""] + rest)[1..] == rest;
      } else {
        var r := Split(s, c);
        assert r == [[s[0]] + rest[0]] + rest[1..];
        if |rest| == 1 {
          assert Join(r, c) == [s[0]] + rest[0];
        } else {
          assert r[1..] == rest[1..];
          assert Join(rest, c) == rest[0] + [c] + Join(rest[1..], c);
        }
      }
    }
  }

  /** split undoes join when no piece holds the separator. */
  lemma {:induction false} SplitJoin(ws: seq<string>, c: char)
    requires |ws| >= 1
    requires forall i :: 0 <= i < |ws| ==> c !in ws[i]
    ensures Split(Join(ws, c), c) == ws
  {
    SplitNoSeparator(ws[0], c);
    if |ws| > 1 {
      SplitJoin(ws[1..], c);
      SplitConcat(ws[0], Join(ws[1..], c), c);
      assert [ws[0]] + ws[1..] == ws;
    }
  }

  /** The first piece of a + c + b is a, when a holds no separator. */
  lemma SplitHead(a: string, b: string, c: char)
    requires c !in a
    ensures Split(a + [c] + b, c)[0] == a
  {
    SplitConcat(a, b, c);
    SplitNoSeparator(a, c);
  }

  /** A piece of a split holds only characters of the string split. */
  lemma {:induction false} SplitKeepsOut(s: string, c: char, d: char)
    requires d !in s
    ensures forall i :: 0 <= i < |Split(s, c)| ==> d !in Split(s, c)[i]
  {
    if |s| > 0 {
      SplitKeepsOut(s[1..], c, d);
      assert d != s[0];
    }
  }

  /** The first piece is empty only when the string starts with the separator. */
  lemma SplitFirstEmpty(s: string, c: char)
    requires |s| > 0 && Split(s, c)[0] == ""
    ensures s[0] == c
  {
  }

  /** The last piece is empty only when the string ends with the separator. */
  lemma {:induction false} SplitLastEmpty(s: string, c: char)
    requires |s| > 0 && Last(Split(s, c)) == ""
    ensures Last(s) == c
  {
    var rest := Split(s[1..], c);
    if |s| > 1 {
      if s[0] == c {
        assert Last(Split(s, c)) == Last(rest);
      } else {
        assert |rest| > 1;
        assert Last(Split(s, c)) == Last(rest);
      }
      SplitLastEmpty(s[1..], c);
      assert Last(s) == Last(s[1..]);
    }
  }

  /** A leading non-separator character joins the first piece. */
  lemma SplitCons(x: char, s: string, c: char)
    requires x != c
    ensures Split([x] + s, c) == [[x] + Split(s, c)[0]] + Split(s, c)[1..]
  {
    assert ([x] + s)[1..] == s;
  }

  /** A trailing non-separator character joins the last piece. */
  lemma {:induction false} SplitSnoc(s: string, x: char, c: char)
    requires x != c
    ensures |Split(s + [x], c)| == |Split(s, c)|
    ensures Split(s + [x], c) == Split(s, c)[..|Split(s, c)| - 1] + [Last(Split(s, c)) + [x]]
  {
    if |s| == 0 {
      assert s + [x] == [x] && [x][1..] == [];
      assert Split([x], c) == [[x] + ""];
      assert Split(s, c) == [""];
      assert [x] + "" == "" + [x];
    } else {
      var t := s + [x];
      assert t[0] == s[0] && t[1..] == s[1..] + [x];
      SplitSnoc(s[1..], x, c);
      var rest := Split(s[1..], c);
      var rest2 := Split(s[1..] + [x], c);
      if s[0] == c {
        assert Split(t, c) == [""] + rest2;
        assert Split(s, c) == [""] + rest;
      } else {
        assert Split(t, c) == [[s[0]] + rest2[0]] + rest2[1..];
        assert Split(s, c) == [[s[0]] + rest[0]] + rest[1..];
        if |rest| == 1 {
          assert rest2 == [rest[0] + [x]];
          assert rest2[1..] == [];
          assert Split(s, c) == [[s[0]] + rest[0]];
          assert [s[0]] + (rest[0] + [x]) == ([s[0]] + rest[0]) + [x];
        } else {
          assert rest2[0] == rest[0];
          assert rest2[1..] == rest[1..|rest| - 1] + [Last(rest) + [x]];
        }
      }
    }
  }

  /** Python 2 str.lower() under the C locale: only A-Z change. */
  function LowerChar(c: char): char {
    if 'A' <= c <= 'Z' then (c as int + 32) as char else c
  }

  /** s.lower() */
  function Lower(s: string): string {
    seq(|s|, i requires 0 <= i < |s| => LowerChar(s[i]))
  }

  /** `needle in hay` for strings: needle occurs in hay at some offset. */
  function Contains(hay: string, needle: string): bool
    decreases |hay|
  {
    needle <= hay || (|hay| > 0 && Contains(hay[1..], needle))
  }

  /** Case-insensitive substring test, as `needle.lower() in hay.lower()`. */
  predicate ContainsIgnoringCase(hay: string, needle: string) {
    Contains(Lower(hay), Lower(needle))
  }

  predicate IsDigit(c: char) {
    '0' <= c <= '9'
  }

  predicate AllDigits(s: string) {
    forall i :: 0 <= i < |s| ==> IsDigit(s[i])
  }

  function DigitChar(d: nat): char
    requires d < 10
  {
    (48 + d) as char
  }

  /** str(n) for a natural number: its decimal digits, most significant first. */
  function NatStr(n: nat): (r: string)
    ensures |r| > 0 && AllDigits(r)
  {
    if n < 10 then [DigitChar(n)] else NatStr(n / 10) + [DigitChar(n % 10)]
  }

  /** str(x) for an integer: a minus sign for negatives, then the digits. */
  function IntStr(x: int): (r: string)
    ensures |r| > 0 && IsDigit(r[|r| - 1])
    ensures IsDigit(r[0]) || r[0] == '-'
    ensures forall i :: 0 < i < |r| ==> IsDigit(r[i])
  {
    if x < 0 then "-" + NatStr(-x) else NatStr(x)
  }

  /** The number a string of decimal digits denotes (leading zeros allowed). */
  function DigitsValue(s: string): nat
    requires AllDigits(s)
  {
    if |s| == 0 then 0 else DigitsValue(s[..|s| - 1]) * 10 + (s[|s| - 1] as int - 48)
  }

  /**
   * int(s) on a str: surrounding whitespace is ignored, then an optional sign, more
   * whitespace after the sign (CPython 2 skips it again before the digits), and one or
   * more decimal digits; anything else raises ValueError (None here).
   */
  function ParseInt(s: string): Option<int> {
    var t := Strip(s);
    if |t| > 0 && (t[0] == '-' || t[0] == '+') then
      var d := StripLeft(t[1..]);
      if |d| > 0 && AllDigits(d) then
        var v: int := DigitsValue(d);
        Some(if t[0] == '-' then -v else v)
      else None
    else if |t| > 0 && AllDigits(t) then Some(DigitsValue(t))
    else None
  }

  lemma {:induction false} DigitsValueNatStr(n: nat)
    ensures DigitsValue(NatStr(n)) == n
  {
    if n >= 10 {
      var p := NatStr(n / 10);
      var s := p + [DigitChar(n % 10)];
      assert s[..|s| - 1] == p;
      DigitsValueNatStr(n / 10);
    }
  }

  /** int(str(x)) == x */
  lemma ParseIntStr(x: int)
    ensures ParseInt(IntStr(x)) == Some(x)
  {
    var s := IntStr(x);
    StripNoop(s);
    if x < 0 {
      assert s[1..] == NatStr(-x);
      assert StripLeft(s[1..]) == s[1..];
      DigitsValueNatStr(-x);
    } else {
      DigitsValueNatStr(x);
    }
  }

  /** A sign may be followed by whitespace: int("+ 2") == 2 and int("- 1") == -1. */
  lemma ParseIntSpaceAfterSign()
    ensures ParseInt("+ 2") == Some(2) && ParseInt("- 1") == Some(-1)
  {
    assert Strip("+ 2") == "+ 2" && "+ 2"[1..] == " 2" && StripLeft(" 2") == "2";
    assert Strip("- 1") == "- 1" && "- 1"[1..] == " 1" && StripLeft(" 1") == "1";
    assert " 2"[1..] == "2" && " 1"[1..] == "1";
    assert DigitsValue("2") == 2 by { assert "2"[..0] == ""; }
    assert DigitsValue("1") == 1 by { assert "1"[..0] == ""; }
  }

  /** s.zfill(width): pad with '0' on the left, after a leading sign, up to width. */
  function ZFill(s: string, width: nat): (r: string)
    ensures |r| == if |s| >= width then |s| else width
  {
    if |s| >= width then s
    else
      var zeros := seq(width - |s|, _ => '0');
      if |s| > 0 && (s[0] == '+' || s[0] == '-') then [s[0]] + zeros + s[1..] else zeros + s
  }

  /** int(str(x).zfill(2)) == x */
  lemma ParseIntZFill(x: int)
    ensures ParseInt(ZFill(IntStr(x), 2)) == Some(x)
  {
    if 0 <= x < 10 {
      var z := ZFill(IntStr(x), 2);
      assert z == ['0', DigitChar(x)];
      StripNoop(z);
      assert DigitsValue(z[..1]) == 0;
    } else {
      ParseIntStr(x);
    }
  }

  /** The characters a zero-padded str(int) can contain: digits and a minus sign. */
  lemma ZFillIntStrChars(x: int, width: nat)
    ensures forall i :: 0 <= i < |ZFill(IntStr(x), width)| ==>
      IsDigit(ZFill(IntStr(x), width)[i]) || ZFill(IntStr(x), width)[i] == '-'
  {
  }

  /** s.find(c): the first index holding c, or -1. */
  function Find(s: string, c: char): (r: int)
    ensures -1 <= r < |s|
    ensures r == -1 <==> c !in s
    ensures r >= 0 ==> s[r] == c && c !in s[..r]
  {
    if |s| == 0 then -1
    else if s[0] == c then 0
    else
      var k := Find(s[1..], c);
      assert s[1..][..k + 1] == s[1..k + 2];
      if k == -1 then -1 else k + 1
  }

  /** s.rfind(c): the last index holding c, or -1. */
  function RFind(s: string, c: char): (r: int)
    ensures -1 <= r < |s|
    ensures r == -1 <==> c !in s
    ensures r >= 0 ==> s[r] == c && c !in s[r + 1..]
  {
    if |s| == 0 then -1
    else if s[|s| - 1] == c then |s| - 1
    else
      var init := s[..|s| - 1];
      assert s == init + [s[|s| - 1]];
      var k := RFind(init, c);
      LastOccurrenceSnoc(init, s[|s| - 1], c, k);
      k
  }

  /** The last occurrence of c in init is still the last once a character other than c is appended. */
  lemma LastOccurrenceSnoc(init: string, x: char, c: char, k: int)
    requires x != c && -1 <= k < |init|
    requires k == -1 <==> c !in init
    requires k >= 0 ==> init[k] == c && c !in init[k + 1..]
    ensures k == -1 <==> c !in init + [x]
    ensures k >= 0 ==> (init + [x])[k] == c && c !in (init + [x])[k + 1..]
  {
    if k >= 0 {
      assert (init + [x])[k + 1..] == init[k + 1..] + [x];
    }
  }
}
