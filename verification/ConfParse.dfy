/** Quoting, unquoting and splitting of configuration strings.

    Strings are sequences of bytes, held as characters below 256.  A pointer into a string is a
    position; skipping an unterminated comment may leave it one or two places past the end. */
module ConfParse {

  predicate IsSpace(c: char) {
    c == ' ' || c == '\n' || c == '\r' || c == '\t' || c == '\U{0b}' || c == '\U{0c}'
  }

  predicate StartsComment(str: string, s: nat) {
    s + 1 < |str| && str[s] == '/' && (str[s + 1] == '/' || str[s + 1] == '*')
  }

  /** `String::substring` between two positions: empty unless they are in order and inside. */
  function Sub(str: string, a: nat, b: nat): string {
    if a < b <= |str| then str[a..b] else ""
  }

  // ----- Skipping

  function LineEnd(str: string, s: nat): (r: nat)
    ensures r > s
    decreases |str| - s
  {
    if s + 1 < |str| && str[s] != '\n' && str[s] != '\r' then LineEnd(str, s + 1)
    else if s + 1 < |str| && str[s] == '\r' && str[s + 1] == '\n' then s + 2
    else s + 1
  }

  function StarEnd(str: string, s: nat): (r: nat)
    ensures r > s
    decreases |str| - s
  {
    if s + 2 < |str| && (str[s] != '*' || str[s + 1] != '/') then StarEnd(str, s + 1) else s + 2
  }

  function SkipComment(str: string, s: nat): (r: nat)
    requires StartsComment(str, s)
    ensures r > s
  {
    if str[s + 1] == '/' then LineEnd(str, s + 2) else StarEnd(str, s + 2)
  }

  function SkipCommentSpace(str: string, s: nat): (r: nat)
    ensures r >= s
    decreases |str| - s
  {
    if s >= |str| then s
    else if IsSpace(str[s]) then SkipCommentSpace(str, s + 1)
    else if StartsComment(str, s) then SkipCommentSpace(str, SkipComment(str, s))
    else s
  }

  function SkipAngle(str: string, s: nat): (r: nat)
    ensures r >= s
    decreases |str| - s
  {
    if s >= |str| then s
    else if str[s] == '>' then s + 1
    else if StartsComment(str, s) then SkipAngle(str, SkipComment(str, s))
    else SkipAngle(str, s + 1)
  }

  function SkipBackslash(str: string, s: nat): (r: nat)
    requires s < |str| && str[s] == '\\'
    ensures r > s
  {
    if s + 1 >= |str| then s + 1
    else if str[s + 1] == '<' then SkipAngle(str, s + 2)
    else if str[s + 1] == '\r' && s + 2 < |str| && str[s + 2] == '\n' then s + 3
    else s + 2
  }

  /** The double-quoted string whose text starts at `s`. */
  function DoubleQuoteEnd(str: string, s: nat): (r: nat)
    ensures s <= |str| ==> s <= r
    decreases |str| - s
  {
    if s >= |str| then |str|
    else if str[s] == '\\' then DoubleQuoteEnd(str, SkipBackslash(str, s))
    else if str[s] == '\"' then s + 1
    else DoubleQuoteEnd(str, s + 1)
  }

  function SingleQuoteEnd(str: string, s: nat): (r: nat)
    ensures s <= |str| ==> s <= r
    decreases |str| - s
  {
    if s >= |str| then |str| else if str[s] == '\'' then s + 1 else SingleQuoteEnd(str, s + 1)
  }

  // ----- Uncommenting

  datatype Scan = Scan(s: nat, left: nat, right: nat, closed: bool, sa: string)

  predicate ScanDone(str: string, comma: bool, s: nat) {
    s >= |str| || (!IsSpace(str[s]) && !StartsComment(str, s) && str[s] == ',' && comma)
  }

  /** The end of the quoted or plain piece of text that starts at `s`. */
  function TextEnd(str: string, s: nat): (r: nat)
    requires s < |str|
    ensures r > s
  {
    if str[s] == '\'' then SingleQuoteEnd(str, s + 1)
    else if str[s] == '\"' then DoubleQuoteEnd(str, s + 1)
    else if str[s] == '\\' && s + 1 < |str| && str[s + 1] == '<' then SkipBackslash(str, s)
    else s + 1
  }

  function ScanStep(str: string, st: Scan): (r: Scan)
    requires st.s < |str|
    ensures r.s > st.s
  {
    if IsSpace(str[st.s]) then st.(s := st.s + 1)
    else if StartsComment(str, st.s) then st.(s := SkipComment(str, st.s), closed := true)
    else
      var e := TextEnd(str, st.s);
      if st.closed then Scan(e, st.s, e, false, st.sa + Sub(str, st.left, st.right) + " ")
      else st.(s := e, right := e)
  }

  function ScanAll(str: string, comma: bool, st: Scan): Scan
    decreases |str| - st.s
  {
    if ScanDone(str, comma, st.s) then st else ScanAll(str, comma, ScanStep(str, st))
  }

  /** `partial_uncomment`: the simplified text from `i` on, up to a comma if `comma` is set, and
      the position reached. */
  function Uncommented(str: string, i: nat, comma: bool): (nat, string) {
    var s := SkipCommentSpace(str, i);
    var st := ScanAll(str, comma, Scan(s, s, s, false, ""));
    (st.s, st.sa + Sub(str, st.left, st.right))
  }

  method PartialUncomment(str: string, i: nat, comma: bool) returns (commaPos: nat, text: string)
    ensures (commaPos, text) == Uncommented(str, i, comma)
  {
    var s := SkipCommentSpace(str, i);
    var sa := "";
    var left: nat, right: nat := s, s;
    var closed := false;
    ghost var end := ScanAll(str, comma, Scan(s, s, s, false, ""));
    while s < |str|
      invariant ScanAll(str, comma, Scan(s, left, right, closed, sa)) == end
      decreases |str| - s
    {
      ghost var st := Scan(s, left, right, closed, sa);
      if IsSpace(str[s]) {
        s := s + 1;
      } else if StartsComment(str, s) {
        s := SkipComment(str, s);
        closed := true;
      } else if str[s] == ',' && comma {
        break;
      } else {
        if closed {
          sa := sa + Sub(str, left, right) + " ";
          left := s;
          closed := false;
        }
        if str[s] == '\'' {
          s := SingleQuoteEnd(str, s + 1);
        } else if str[s] == '\"' {
          s := DoubleQuoteEnd(str, s + 1);
        } else if str[s] == '\\' && s + 1 < |str| && str[s + 1] == '<' {
          s := SkipBackslash(str, s);
        } else {
          s := s + 1;
        }
        right := s;
      }
      assert Scan(s, left, right, closed, sa) == ScanStep(str, st);
    }
    assert ScanDone(str, comma, s);
    commaPos := s;
    if sa == "" {
      assert sa + Sub(str, left, right) == Sub(str, left, right);
      text := Sub(str, left, right);
    } else {
      text := sa + Sub(str, left, right);
    }
  }

  // ----- Backslash escapes

  predicate OctalDigit(c: char) {
    '0' <= c <= '7'
  }

  /** Up to `d` octal digits from `s`: the end and the value on top of `c`. */
  function Octal(str: string, s: nat, d: nat, c: nat): (r: (nat, nat))
    ensures s <= r.0
    ensures s <= |str| ==> r.0 <= |str|
    decreases d
  {
    if d > 0 && s < |str| && OctalDigit(str[s]) then Octal(str, s + 1, d - 1, c * 8 + (str[s] - '0') as nat) else (s, c)
  }

  function HexValue(c: char): int {
    if '0' <= c <= '9' then (c - '0') as int
    else if 'A' <= c <= 'F' then (c - 'A') as int + 10
    else if 'a' <= c <= 'f' then (c - 'a') as int + 10
    else -1
  }

  function Hex(str: string, s: nat, c: nat): (r: (nat, nat))
    ensures s <= r.0
    ensures s <= |str| ==> r.0 <= |str|
    decreases |str| - s
  {
    if s < |str| && HexValue(str[s]) >= 0 then Hex(str, s + 1, c * 16 + HexValue(str[s])) else (s, c)
  }

  /** A value truncated to one byte. */
  function ByteOf(c: nat): char {
    (c % 256) as char
  }

  /** The bytes of a `\<...>` string, and its end. */
  function Angle(str: string, s: nat, c: nat, d: nat): (r: (nat, string))
    ensures r.0 <= |str|
    ensures s <= |str| ==> s <= r.0
    decreases |str| - s
  {
    if s >= |str| then (|str|, "")
    else if str[s] == '>' then (s + 1, "")
    else if HexValue(str[s]) >= 0 then
      var c' := c * 16 + HexValue(str[s]);
      if d == 1 then
        var (e, rest) := Angle(str, s + 1, 0, 0);
        (e, [ByteOf(c')] + rest)
      else Angle(str, s + 1, c', d + 1)
    else if StartsComment(str, s) then Angle(str, SkipComment(str, s), c, d)
    else Angle(str, s + 1, c, d)
  }

  /** `cp_process_backslash`: the end of the escape at `s`, and what it stands for. */
  function Escape(str: string, s: nat): (r: (nat, string))
    requires s < |str| && str[s] == '\\'
    ensures s < r.0 <= |str|
  {
    if s == |str| - 1 then (|str|, "\\")
    else
      var c := str[s + 1];
      if c == '\r' then (if s + 2 < |str| && str[s + 2] == '\n' then s + 3 else s + 2, "")
      else if c == '\n' then (s + 2, "")
      else if c == 'a' then (s + 2, "\U{07}")
      else if c == 'b' then (s + 2, "\U{08}")
      else if c == 'f' then (s + 2, "\U{0c}")
      else if c == 'n' then (s + 2, "\n")
      else if c == 'r' then (s + 2, "\r")
      else if c == 't' then (s + 2, "\t")
      else if c == 'v' then (s + 2, "\U{0b}")
      else if OctalDigit(c) then
        var (e, v) := Octal(str, s + 1, 3, 0);
        (e, [ByteOf(v)])
      else if c == 'x' then
        var (e, v) := Hex(str, s + 2, 0);
        (e, [ByteOf(v)])
      else if c == '<' then Angle(str, s + 2, 0, 0)
      else (s + 2, [c])
  }

  // ----- Unquoting

  const NONE := '\0'

  /** What `x` stands for from `s` on, inside quotes of the kind `quote` or in none: quote signs go,
      escapes are expanded between double quotes, and outside quotes if they start with `\<`. */
  function Meaning(x: string, s: nat, quote: char): string
    decreases |x| - s
  {
    if s >= |x| then ""
    else if (x[s] == '\"' || x[s] == '\'') && quote == NONE then Meaning(x, s + 1, x[s])
    else if (x[s] == '\"' || x[s] == '\'') && quote == x[s] then Meaning(x, s + 1, NONE)
    else if x[s] == '\\' && s + 1 < |x| && (quote == '\"' || (quote == NONE && x[s + 1] == '<')) then
      var (e, text) := Escape(x, s);
      text + Meaning(x, e, quote)
    else [x[s]] + Meaning(x, s + 1, quote)
  }

  /** `cp_unquote`. */
  function Unquoted(str: string): string {
    Meaning(Uncommented(str, 0, false).1, 0, NONE)
  }

  /** What is left to find is the meaning of the rest. */
  ghost predicate Remains(x: string, start: nat, s: nat, quote: char, sa: string) {
    start <= s <= |x| && sa + Sub(x, start, s) + Meaning(x, s, quote) == Meaning(x, 0, NONE)
  }

  lemma RemainsChar(x: string, start: nat, s: nat, quote: char, sa: string)
    requires Remains(x, start, s, quote, sa) && s < |x| && Meaning(x, s, quote) == [x[s]] + Meaning(x, s + 1, quote)
    ensures Remains(x, start, s + 1, quote, sa)
  {
    hide Meaning;
    SubExtend(x, start, s);
    Regroup(sa, Sub(x, start, s), [x[s]]);
    Regroup(sa + Sub(x, start, s), [x[s]], Meaning(x, s + 1, quote));
  }

  lemma RemainsCut(x: string, start: nat, s: nat, quote: char, sa: string, text: string, e: nat, quote': char)
    requires Remains(x, start, s, quote, sa) && e <= |x| && Meaning(x, s, quote) == text + Meaning(x, e, quote')
    ensures Remains(x, e, e, quote', sa + Sub(x, start, s) + text)
  {
    hide Meaning;
    Regroup(sa + Sub(x, start, s), text, Meaning(x, e, quote'));
    Regroup(sa + Sub(x, start, s) + text, "", "");
  }

  /** The loop copies runs in one piece; with no quote and no escape the string itself is returned. */
  method Unquote(str: string) returns (r: string)
    ensures r == Unquoted(str)
  {
    hide Remains, Uncommented, Escape;
    var _, x := PartialUncomment(str, 0, false);
    var s: nat, start: nat := 0, 0;
    var sa := "";
    var quote := NONE;
    RemainsAll(x);
    while s < |x|
      invariant s <= |x| && Remains(x, start, s, quote, sa)
      invariant start == 0 ==> sa == ""
      decreases |x| - s
    {
      if x[s] == '\"' || x[s] == '\'' {
        if quote == NONE {
          RemainsCut(x, start, s, quote, sa, "", s + 1, x[s]);
          Regroup(sa + Sub(x, start, s), "", "");
          sa := sa + Sub(x, start, s);
          start := s + 1;
          quote := x[s];
        } else if quote == x[s] {
          RemainsCut(x, start, s, quote, sa, "", s + 1, NONE);
          Regroup(sa + Sub(x, start, s), "", "");
          sa := sa + Sub(x, start, s);
          start := s + 1;
          quote := NONE;
        } else {
          RemainsChar(x, start, s, quote, sa);
        }
        s := s + 1;
      } else if x[s] == '\\' && s + 1 < |x| && (quote == '\"' || (quote == NONE && x[s + 1] == '<')) {
        var (e, text) := Escape(x, s);
        RemainsCut(x, start, s, quote, sa, text, e, quote);
        sa := sa + Sub(x, start, s);
        sa := sa + text;
        start := e;
        s := e;
      } else {
        RemainsChar(x, start, s, quote, sa);
        s := s + 1;
      }
    }
    RemainsDone(x, start, s, quote, sa);
    if start == 0 {
      r := x;
    } else {
      r := sa + Sub(x, start, s);
    }
  }

  lemma RemainsAll(x: string)
    ensures Remains(x, 0, 0, NONE, "")
  {
    hide Meaning;
    assert "" + Sub(x, 0, 0) + Meaning(x, 0, NONE) == Meaning(x, 0, NONE);
  }

  lemma RemainsDone(x: string, start: nat, s: nat, quote: char, sa: string)
    requires Remains(x, start, s, quote, sa) && s >= |x|
    ensures sa + Sub(x, start, s) == Meaning(x, 0, NONE)
    ensures start == 0 && sa == "" ==> x == Meaning(x, 0, NONE)
  {
    assert Meaning(x, s, quote) == "";
    hide Meaning;
    Regroup(sa + Sub(x, start, s), "", "");
    assert x[0..|x|] == x;
  }

  // ----- Quoting

  predicate Special(c: char) {
    c == '\\' || c == '\"' || c == '$'
  }

  /** How `cp_quote` writes one byte. */
  function Quoted1(c: char, allowNewlines: bool): string
    requires c as int < 256
  {
    if Special(c) then ['\\', c]
    else if c == '\t' then ['\\', 't']
    else if c == '\r' then ['\\', 'r']
    else if c == '\n' then (if allowNewlines then [c] else ['\\', 'n'])
    else if c as int < 32 || c as int >= 127 then
      var u := c as int;
      ['\\', '0' + (u / 64) as char, '0' + (u / 8 % 8) as char, '0' + (u % 8) as char]
    else [c]
  }

  ghost predicate Bytes(str: string) {
    forall i :: 0 <= i < |str| ==> str[i] as int < 256
  }

  function QuotedBody(str: string, allowNewlines: bool): string
    requires forall i :: 0 <= i < |str| ==> str[i] as int < 256
  {
    if str == "" then "" else Quoted1(str[0], allowNewlines) + QuotedBody(str[1..], allowNewlines)
  }

  /** `cp_quote`. */
  function Quoted(str: string, allowNewlines: bool): string
    requires forall i :: 0 <= i < |str| ==> str[i] as int < 256
  {
    "\"" + QuotedBody(str, allowNewlines) + "\""
  }

  lemma {:induction false} QuotedBodySnoc(str: string, n: nat, allowNewlines: bool)
    requires Bytes(str) && n < |str|
    ensures QuotedBody(str[..n + 1], allowNewlines)
        == QuotedBody(str[..n], allowNewlines) + Quoted1(str[n], allowNewlines)
    decreases n
  {
    hide Quoted1;
    if n == 0 {
      assert str[..1] == [str[0]] && str[..0] == "" && [str[0]][1..] == "";
    } else {
      QuotedBodySnoc(str[1..], n - 1, allowNewlines);
      assert str[..n + 1][1..] == str[1..][..n] && str[..n][1..] == str[1..][..n - 1];
    }
  }

  /** The loop of `cp_quote`: runs of bytes that need no escape are copied in one piece. */
  method Quote(str: string, allowNewlines: bool) returns (r: string)
    requires Bytes(str)
    ensures r == Quoted(str, allowNewlines)
  {
    if str == "" {
      return "\"\"";
    }
    hide QuotedBody, Quoted1, Sub;
    var sa := "\"";
    var start := 0;
    var s := 0;
    QuotedNothing(str, allowNewlines);
    while s < |str|
      invariant 0 <= start <= s <= |str|
      invariant sa + Sub(str, start, s) == "\"" + QuotedBody(str[..s], allowNewlines)
    {
      QuotedBodySnoc(str, s, allowNewlines);
      var q := Quoted1(str[s], allowNewlines);
      SubExtend(str, start, s);
      Regroup("\"", QuotedBody(str[..s], allowNewlines), q);
      Regroup(sa, Sub(str, start, s), q);
      if q != [str[s]] {
        sa := sa + Sub(str, start, s) + q;
        start := s + 1;
        Regroup(sa, "", "");
      }
      s := s + 1;
    }
    assert str[..s] == str;
    r := sa + Sub(str, start, s) + "\"";
  }

  lemma Regroup(a: string, b: string, c: string)
    ensures a + (b + c) == a + b + c
    ensures a + "" == a
  {
  }

  lemma SubExtend(str: string, start: nat, s: nat)
    requires start <= s < |str|
    ensures Sub(str, start, s + 1) == Sub(str, start, s) + [str[s]]
    ensures Sub(str, s + 1, s + 1) == ""
  {
  }

  lemma QuotedNothing(str: string, allowNewlines: bool)
    ensures str[..0] == "" && QuotedBody("", allowNewlines) == "" && Sub(str, 0, 0) == ""
  {
  }

  // ----- Splitting and joining

  /** `cp_argvec` from position `pos` on. */
  function ArgvecFrom(str: string, pos: nat): seq<string>
    decreases |str| - pos
  {
    if pos >= |str| then []
    else
      var (next, arg) := Uncommented(str, pos, true);
      UncommentedAdvances(str, pos, true);
      (if arg != "" || next < |str| then [arg] else []) + ArgvecFrom(str, next + 1)
  }

  lemma UncommentedAdvances(str: string, i: nat, comma: bool)
    ensures Uncommented(str, i, comma).0 >= i
  {
    var s := SkipCommentSpace(str, i);
    ScanAdvances(str, comma, Scan(s, s, s, false, ""));
  }

  lemma {:induction false} ScanAdvances(str: string, comma: bool, st: Scan)
    ensures ScanAll(str, comma, st).s >= st.s
    decreases |str| - st.s
  {
    if !ScanDone(str, comma, st.s) { ScanAdvances(str, comma, ScanStep(str, st)); }
  }

  lemma ArgvecStep(str: string, pos: nat, next: nat, arg: string)
    requires pos < |str| && (next, arg) == Uncommented(str, pos, true)
    ensures next >= pos
    ensures ArgvecFrom(str, pos) == (if arg != "" || next < |str| then [arg] else []) + ArgvecFrom(str, next + 1)
  {
    hide Uncommented;
    UncommentedAdvances(str, pos, true);
  }

  lemma ArgvecEnd(str: string, pos: nat)
    requires pos >= |str|
    ensures ArgvecFrom(str, pos) == []
  {
  }

  method Argvec(str: string) returns (conf: seq<string>)
    ensures conf == ArgvecFrom(str, 0)
  {
    hide ArgvecFrom, Uncommented;
    conf := [];
    if |str| == 0 {
      ArgvecEnd(str, 0);
      return;
    }
    var pos := 0;
    while pos < |str|
      invariant conf + ArgvecFrom(str, pos) == ArgvecFrom(str, 0)
      decreases |str| - pos
    {
      var next, arg := PartialUncomment(str, pos, true);
      ArgvecStep(str, pos, next, arg);
      if arg != "" || next < |str| {
        assert conf + ([arg] + ArgvecFrom(str, next + 1)) == conf + [arg] + ArgvecFrom(str, next + 1);
        conf := conf + [arg];
      } else {
        assert [] + ArgvecFrom(str, next + 1) == ArgvecFrom(str, next + 1);
      }
      pos := next + 1;
    }
    ArgvecEnd(str, pos);
    assert conf + [] == conf;
  }

  /** `cp_unargvec`. */
  function Unargvec(conf: seq<string>): string {
    if conf == [] then "" else if |conf| == 1 then conf[0] else Unargvec(conf[..|conf| - 1]) + ", " + conf[|conf| - 1]
  }

  method UnargvecLoop(conf: seq<string>) returns (r: string)
    ensures r == Unargvec(conf)
  {
    if |conf| == 0 { return ""; }
    if |conf| == 1 { return conf[0]; }
    r := conf[0];
    var i := 1;
    while i < |conf|
      invariant 1 <= i <= |conf| && r == Unargvec(conf[..i])
    {
      assert conf[..i + 1][..i] == conf[..i];
      r := r + ", " + conf[i];
      i := i + 1;
    }
    assert conf[..i] == conf;
  }

  // ----- Quoted text is skipped as a whole

  /** `piece` stands in `str` at position `i`. */
  predicate At(str: string, i: nat, piece: string) {
    i + |piece| <= |str| && str[i..i + |piece|] == piece
  }

  lemma AtIndex(str: string, i: nat, piece: string, k: nat)
    requires At(str, i, piece) && k < |piece|
    ensures str[i + k] == piece[k]
  {
    assert str[i..i + |piece|][k] == str[i + k];
  }

  lemma AtSplit(str: string, i: nat, a: string, b: string)
    requires At(str, i, a + b)
    ensures At(str, i, a) && At(str, i + |a|, b)
  {
    var ab := str[i..i + |a + b|];
    assert str[i..i + |a|] == ab[..|a|] == a;
    assert str[i + |a|..i + |a| + |b|] == ab[|a|..] == b;
  }

  lemma Quoted1Shape(c: char, nl: bool)
    requires c as int < 256
    ensures var q := Quoted1(c, nl);
            || (q == [c] && c != '\\' && c != '\"')
            || (|q| == 2 && q[0] == '\\' && q[1] != '<' && q[1] != '\r')
            || (|q| == 4 && q[0] == '\\' && OctalDigit(q[1]) && OctalDigit(q[2]) && OctalDigit(q[3]))
  {
  }

  lemma SkipOne(str: string, i: nat, c: char, nl: bool)
    requires c as int < 256 && At(str, i, Quoted1(c, nl))
    ensures DoubleQuoteEnd(str, i) == DoubleQuoteEnd(str, i + |Quoted1(c, nl)|)
  {
    var q := Quoted1(c, nl);
    Quoted1Shape(c, nl);
    AtIndex(str, i, q, 0);
    if |q| == 2 {
      AtIndex(str, i, q, 1);
    } else if |q| == 4 {
      AtIndex(str, i, q, 1);
      AtIndex(str, i, q, 2);
      AtIndex(str, i, q, 3);
      assert SkipBackslash(str, i) == i + 2;
      assert DoubleQuoteEnd(str, i + 2) == DoubleQuoteEnd(str, i + 3) == DoubleQuoteEnd(str, i + 4);
    }
  }

  lemma {:induction false} SkipBody(str: string, i: nat, item: string, nl: bool)
    requires Bytes(item) && At(str, i, QuotedBody(item, nl) + "\"")
    ensures DoubleQuoteEnd(str, i) == i + |QuotedBody(item, nl)| + 1
    decreases |item|
  {
    if item == "" {
      hide Quoted1;
      AtIndex(str, i, QuotedBody(item, nl) + "\"", 0);
    } else {
      hide DoubleQuoteEnd, Quoted1, At;
      var q, rest := Quoted1(item[0], nl), QuotedBody(item[1..], nl);
      assert QuotedBody(item, nl) + "\"" == q + (rest + "\"");
      AtSplit(str, i, q, rest + "\"");
      SkipOne(str, i, item[0], nl);
      SkipBody(str, i + |q|, item[1..], nl);
    }
  }

  // ----- Unquoting undoes quoting

  lemma OctalThree(x: string, s: nat)
    requires s + 2 < |x| && OctalDigit(x[s]) && OctalDigit(x[s + 1]) && OctalDigit(x[s + 2])
    ensures Octal(x, s, 3, 0) == (s + 3,
        (x[s] - '0') as nat * 64 + (x[s + 1] - '0') as nat * 8 + (x[s + 2] - '0') as nat)
  {
    var a, b, c := (x[s] - '0') as nat, (x[s + 1] - '0') as nat, (x[s + 2] - '0') as nat;
    assert Octal(x, s + 3, 0, a * 64 + b * 8 + c) == (s + 3, a * 64 + b * 8 + c);
    assert Octal(x, s + 2, 1, a * 8 + b) == Octal(x, s + 3, 0, a * 64 + b * 8 + c);
    assert Octal(x, s + 1, 2, a) == Octal(x, s + 2, 1, a * 8 + b);
  }

  lemma EscapeOctal(x: string, s: nat, c: char)
    requires c as int < 256 && (c as int < 32 || c as int >= 127) && s + 3 < |x| && x[s] == '\\'
    requires x[s + 1] == '0' + (c as int / 64) as char && x[s + 2] == '0' + (c as int / 8 % 8) as char
        && x[s + 3] == '0' + (c as int % 8) as char
    ensures Escape(x, s) == (s + 4, [c])
  {
    var u := c as int;
    OctalValue(u);
    DigitBack(u / 64);
    DigitBack(u / 8 % 8);
    DigitBack(u % 8);
    OctalThree(x, s + 1);
    hide Octal;
    assert Octal(x, s + 1, 3, 0) == (s + 4, u);
  }

  lemma OctalValue(u: int)
    requires 0 <= u < 256
    ensures 0 <= u / 64 < 8 && u / 64 * 64 + u / 8 % 8 * 8 + u % 8 == u
  {
  }

  lemma DigitBack(k: int)
    requires 0 <= k < 8
    ensures OctalDigit('0' + k as char) && (('0' + k as char) - '0') as int == k
  {
  }

  /** The escape of one byte expands to that byte. */
  lemma EscapeOne(x: string, s: nat, c: char, nl: bool)
    requires c as int < 256 && At(x, s, Quoted1(c, nl)) && Quoted1(c, nl) != [c] && s + |Quoted1(c, nl)| < |x|
    ensures x[s] == '\\' && Escape(x, s) == (s + |Quoted1(c, nl)|, [c])
  {
    var q := Quoted1(c, nl);
    AtIndex(x, s, q, 0);
    AtIndex(x, s, q, 1);
    if |q| == 4 {
      AtIndex(x, s, q, 2);
      AtIndex(x, s, q, 3);
      EscapeOctal(x, s, c);
    }
  }

  lemma MeaningOne(x: string, s: nat, c: char, nl: bool)
    requires c as int < 256 && At(x, s, Quoted1(c, nl)) && s + |Quoted1(c, nl)| < |x|
    ensures Meaning(x, s, '\"') == [c] + Meaning(x, s + |Quoted1(c, nl)|, '\"')
  {
    hide Escape;
    var q := Quoted1(c, nl);
    if q == [c] {
      Quoted1Shape(c, nl);
      AtIndex(x, s, q, 0);
    } else {
      EscapeOne(x, s, c, nl);
    }
  }

  lemma MeaningClose(x: string, s: nat)
    requires At(x, s, "\"") && s + 1 == |x|
    ensures Meaning(x, s, '\"') == ""
  {
    hide Escape;
    AtIndex(x, s, "\"", 0);
  }

  lemma {:induction false} UnquoteBody(x: string, s: nat, item: string, nl: bool)
    requires Bytes(item) && At(x, s, QuotedBody(item, nl) + "\"") && s + |QuotedBody(item, nl)| + 1 == |x|
    ensures Meaning(x, s, '\"') == item
    decreases |item|
  {
    hide Quoted1, Meaning, At;
    if item == "" {
      assert QuotedBody(item, nl) + "\"" == "\"";
      MeaningClose(x, s);
    } else {
      var q, rest := Quoted1(item[0], nl), QuotedBody(item[1..], nl);
      assert QuotedBody(item, nl) + "\"" == q + (rest + "\"");
      AtSplit(x, s, q, rest + "\"");
      MeaningOne(x, s, item[0], nl);
      UnquoteBody(x, s + |q|, item[1..], nl);
      assert [item[0]] + item[1..] == item;
    }
  }

  // ----- One quoted item is scanned in one step

  ghost predicate Ends(str: string, e: nat) {
    e <= |str| && (e < |str| ==> str[e] == ',')
  }

  lemma ScanQuoted(str: string, i: nat, item: string, nl: bool, comma: bool)
    requires Bytes(item) && At(str, i, Quoted(item, nl))
    requires if comma then Ends(str, i + |Quoted(item, nl)|) else i + |Quoted(item, nl)| == |str|
    ensures Uncommented(str, i, comma) == (i + |Quoted(item, nl)|, Quoted(item, nl))
  {
    hide QuotedBody, DoubleQuoteEnd;
    var q, body := Quoted(item, nl), QuotedBody(item, nl);
    var e := i + |q|;
    assert q == "\"" + (body + "\"");
    AtIndex(str, i, q, 0);
    AtSplit(str, i, "\"", body + "\"");
    SkipBody(str, i + 1, item, nl);
    assert SkipCommentSpace(str, i) == i;
    var st0 := Scan(i, i, i, false, "");
    assert ScanStep(str, st0) == Scan(e, i, e, false, "");
    assert ScanDone(str, comma, e);
    assert ScanAll(str, comma, Scan(e, i, e, false, "")) == Scan(e, i, e, false, "");
    assert ScanAll(str, comma, st0) == Scan(e, i, e, false, "");
    assert "" + Sub(str, i, e) == q;
  }

  /** Unquoting a quoted string gives the string back, for every byte string and either newline
      setting. */
  lemma UnquoteQuote(str: string, nl: bool)
    requires Bytes(str)
    ensures Unquoted(Quoted(str, nl)) == str && Quoted(str, nl) != ""
  {
    hide QuotedBody, Uncommented;
    var x, body := Quoted(str, nl), QuotedBody(str, nl);
    assert x[0..|x|] == x;
    ScanQuoted(x, 0, str, nl, false);
    assert x == "\"" + (body + "\"");
    AtSplit(x, 0, "\"", body + "\"");
    assert x[0] == '\"';
    UnquoteBody(x, 1, str, nl);
  }

  // ----- Splitting undoes joining

  /** What follows the first item of a joined list. */
  ghost function JoinTail(items: seq<string>): string {
    if items == [] then "" else ", " + items[0] + JoinTail(items[1..])
  }

  lemma {:induction false} JoinTailSnoc(items: seq<string>, last: string)
    ensures JoinTail(items + [last]) == JoinTail(items) + ", " + last
    decreases |items|
  {
    if items == [] {
      assert ([] + [last])[1..] == [];
    } else {
      JoinTailSnoc(items[1..], last);
      assert (items + [last])[1..] == items[1..] + [last];
      var head, t := ", " + items[0], JoinTail(items[1..]);
      assert head + (t + ", " + last) == head + t + ", " + last;
    }
  }

  lemma {:induction false} UnargvecForward(items: seq<string>)
    requires items != []
    ensures Unargvec(items) == items[0] + JoinTail(items[1..])
    decreases |items|
  {
    if |items| == 1 {
      assert items[0] + "" == items[0];
    } else {
      var m := |items| - 1;
      UnargvecForward(items[..m]);
      JoinTailSnoc(items[1..m], items[m]);
      assert items[1..] == items[1..m] + [items[m]] && items[..m][1..] == items[1..m];
      var a, t := items[0], JoinTail(items[1..m]);
      assert a + (t + ", " + items[m]) == a + t + ", " + items[m];
    }
  }

  ghost predicate AllQuoted(items: seq<string>, raw: seq<string>, nl: bool) {
    |items| == |raw| && forall i :: 0 <= i < |raw| ==> Bytes(raw[i]) && items[i] == Quoted(raw[i], nl)
  }

  /** The separator's space before an item is skipped. */
  lemma SkipSeparator(str: string, pos: nat)
    requires pos + 1 < |str| && str[pos] == ' '
    ensures Uncommented(str, pos, true) == Uncommented(str, pos + 1, true)
  {
  }

  lemma {:induction false} SplitFrom(str: string, pos: nat, items: seq<string>, raw: seq<string>, nl: bool)
    requires AllQuoted(items, raw, nl) && items != []
    requires pos <= |str| && str[pos..] == items[0] + JoinTail(items[1..])
    ensures Uncommented(str, pos, true) == (pos + |items[0]|, items[0])
    ensures pos < |str|
    ensures items[0] != "" && ArgvecFrom(str, pos + |items[0]| + 1) == items[1..]
    decreases |items|
  {
    hide Uncommented, Quoted, ArgvecFrom;
    var q, tail := items[0], JoinTail(items[1..]);
    var e := pos + |q|;
    QuotedNonempty(raw[0], nl);
    assert str[pos..e] == str[pos..][..|q|] == q;
    assert str[e..] == str[pos..][|q|..] == tail;
    if |items| == 1 {
      assert tail == "";
      ScanQuoted(str, pos, raw[0], nl, true);
      ArgvecEnd(str, e + 1);
    } else {
      var rest := items[1..];
      var more := JoinTail(rest[1..]);
      assert tail == ", " + rest[0] + more;
      assert str[e] == str[e..][0] == ',' && str[e + 1] == str[e..][1] == ' ';
      assert str[e + 2..] == str[e..][2..] == rest[0] + more;
      ScanQuoted(str, pos, raw[0], nl, true);
      SplitFrom(str, e + 2, rest, raw[1..], nl);
      SkipSeparator(str, e + 1);
      ArgvecStep(str, e + 1, e + 2 + |rest[0]|, rest[0]);
      assert [rest[0]] + rest[1..] == rest;
    }
  }

  lemma QuotedNonempty(str: string, nl: bool)
    requires Bytes(str)
    ensures Quoted(str, nl) != ""
  {
  }

  /** Splitting the join of quoted items gives the items back, for every list. */
  lemma ArgvecUnargvec(items: seq<string>, raw: seq<string>, nl: bool)
    requires AllQuoted(items, raw, nl)
    ensures ArgvecFrom(Unargvec(items), 0) == items
  {
    hide Uncommented, Quoted, ArgvecFrom, JoinTail;
    var str := Unargvec(items);
    if items == [] {
      ArgvecEnd(str, 0);
    } else {
      UnargvecForward(items);
      assert str[0..] == str;
      SplitFrom(str, 0, items, raw, nl);
      ArgvecStep(str, 0, |items[0]|, items[0]);
      assert [items[0]] + items[1..] == items;
    }
  }
}
