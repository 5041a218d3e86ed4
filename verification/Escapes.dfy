/** Where comments, quotations and escapes end and what escapes stand for, in terms of the characters
    written. */
module Escapes {
  import opened ConfParse

  // ----- Characters

  const Lower := "0123456789abcdef"
  const Upper := "0123456789ABCDEF"

  lemma SpacesAre(c: char)
    ensures IsSpace(c) <==> c as int == 32 || 9 <= c as int <= 13
  {
  }

  lemma HexDigitsAre()
    ensures forall n :: 0 <= n < 16 ==> HexValue(Lower[n]) == n == HexValue(Upper[n])
  {
  }

  lemma HexDigitsOnly(c: char)
    ensures HexValue(c) >= 0 <==> c in Lower || c in Upper
    ensures HexValue(c) < 0 ==> HexValue(c) == -1
  {
    var n := HexValue(c);
    if n >= 0 {
      assert Lower[n] == c || Upper[n] == c;
    }
  }

  // ----- Comments

  /** Only two slashes, or a slash and a star, begin a comment. */
  lemma CommentStarts(str: string, s: nat)
    ensures StartsComment(str, s) <==>
      s + 1 < |str| && (str[s..s + 2] == "//" || str[s..s + 2] == "/*")
  {
    assert s + 1 < |str| ==> str[s..s + 2] == [str[s], str[s + 1]];
  }

  /** No end of a comment before the one that follows `body`. */
  ghost predicate NoStarSlash(body: string) {
    forall i :: 0 <= i < |body| ==> !(body[i] == '*' && (body + "*/")[i + 1] == '/')
  }

  lemma {:induction false} StarEndIs(str: string, s: nat, body: string)
    requires At(str, s, body + "*/") && NoStarSlash(body)
    ensures StarEnd(str, s) == s + |body| + 2
    decreases |body|
  {
    var all := body + "*/";
    AtIndex(str, s, all, 0);
    AtIndex(str, s, all, 1);
    if body != "" {
      assert all == [body[0]] + (body[1..] + "*/");
      AtSplit(str, s, [body[0]], body[1..] + "*/");
      assert !(body[0] == '*' && all[1] == '/');
      NoStarSlashTail(body);
      StarEndIs(str, s + 1, body[1..]);
    }
  }

  lemma NoStarSlashTail(body: string)
    requires NoStarSlash(body) && body != ""
    ensures NoStarSlash(body[1..])
  {
    var rest := body[1..];
    forall i | 0 <= i < |rest| ensures !(rest[i] == '*' && (rest + "*/")[i + 1] == '/') {
      var k := i + 1;
      assert body[k] == rest[i] && (body + "*/")[k + 1] == (rest + "*/")[i + 1];
    }
  }

  /** A comment between slash-star and star-slash. */
  lemma StarComment(str: string, s: nat, body: string)
    requires At(str, s, "/*" + body + "*/") && NoStarSlash(body)
    ensures StartsComment(str, s) && SkipComment(str, s) == s + |body| + 4
  {
    hide StarEnd;
    var all := "/*" + body + "*/";
    AtIndex(str, s, all, 0);
    AtIndex(str, s, all, 1);
    assert all == "/*" + (body + "*/");
    AtSplit(str, s, "/*", body + "*/");
    StarEndIs(str, s + 2, body);
  }

  /** A line ends with a newline, a carriage return, or both. */
  ghost predicate LineEnds(str: string, e: nat, n: nat) {
    e < |str| && if str[e] == '\n' then n == 1
                 else str[e] == '\r' && n == if e + 1 < |str| && str[e + 1] == '\n' then 2 else 1
  }

  lemma {:induction false} LineEndIs(str: string, s: nat, body: string, n: nat)
    requires At(str, s, body) && '\n' !in body && '\r' !in body && LineEnds(str, s + |body|, n)
    ensures LineEnd(str, s) == s + |body| + n
    decreases |body|
  {
    if body != "" {
      AtIndex(str, s, body, 0);
      assert body == [body[0]] + body[1..];
      AtSplit(str, s, [body[0]], body[1..]);
      assert body[0] in body && forall c :: c in body[1..] ==> c in body;
      LineEndIs(str, s + 1, body[1..], n);
    }
  }

  /** A comment from two slashes to the end of the line, which belongs to it. */
  lemma LineComment(str: string, s: nat, body: string, n: nat)
    requires At(str, s, "//" + body) && '\n' !in body && '\r' !in body && LineEnds(str, s + 2 + |body|, n)
    ensures StartsComment(str, s) && SkipComment(str, s) == s + 2 + |body| + n
  {
    hide LineEnd, LineEnds;
    AtSplit(str, s, "//", body);
    AtIndex(str, s, "//", 0);
    AtIndex(str, s, "//", 1);
    LineEndIs(str, s + 2, body, n);
  }

  // ----- Quotations

  lemma QuoteStep(str: string, s: nat, body: string)
    requires body != "" && '\'' !in body && s < |str| && str[s] == body[0]
    ensures SingleQuoteEnd(str, s) == SingleQuoteEnd(str, s + 1) && '\'' !in body[1..]
  {
    assert body[0] in body && forall c :: c in body[1..] ==> c in body;
  }

  /** A quotation in single quotes ends at the next single quote. */
  lemma {:induction false} SingleQuoteIs(str: string, s: nat, body: string)
    requires '\'' !in body && At(str, s, body + "'")
    ensures SingleQuoteEnd(str, s) == s + |body| + 1
    decreases |body|
  {
    AtIndex(str, s, body + "'", 0);
    if body != "" {
      hide SingleQuoteEnd;
      assert body + "'" == [body[0]] + (body[1..] + "'");
      AtSplit(str, s, [body[0]], body[1..] + "'");
      QuoteStep(str, s, body);
      SingleQuoteIs(str, s + 1, body[1..]);
    }
  }

  /** Without one it ends with the text. */
  lemma {:induction false} SingleQuoteOpen(str: string, s: nat, body: string)
    requires '\'' !in body && At(str, s, body) && s + |body| == |str|
    ensures SingleQuoteEnd(str, s) == |str|
    decreases |body|
  {
    if body != "" {
      hide SingleQuoteEnd;
      AtIndex(str, s, body, 0);
      assert body == [body[0]] + body[1..];
      AtSplit(str, s, [body[0]], body[1..]);
      QuoteStep(str, s, body);
      SingleQuoteOpen(str, s + 1, body[1..]);
    }
  }

  /** A quotation in double quotes ends at the next double quote that no backslash precedes. */
  lemma DoubleQuoteIs(str: string, s: nat)
    requires s < |str|
    ensures str[s] == '\"' ==> DoubleQuoteEnd(str, s) == s + 1
    ensures str[s] != '\"' && str[s] != '\\' ==> DoubleQuoteEnd(str, s) == DoubleQuoteEnd(str, s + 1)
    ensures str[s] == '\\' && s + 1 < |str| && str[s + 1] != '<' && str[s + 1] != '\r' ==>
        DoubleQuoteEnd(str, s) == DoubleQuoteEnd(str, s + 2)
    ensures str[s] == '\\' && s + 1 == |str| ==> DoubleQuoteEnd(str, s) == |str|
    ensures str[s] == '\\' && s + 2 < |str| && str[s + 1] == '\r' && str[s + 2] == '\n' ==>
        DoubleQuoteEnd(str, s) == DoubleQuoteEnd(str, s + 3)
  {
  }

  /** Outside quotations every character is a piece by itself, but for a backslash with an angle
      bracket behind it. */
  lemma PlainPiece(str: string, s: nat)
    requires s < |str| && str[s] != '\'' && str[s] != '\"'
    ensures !(str[s] == '\\' && s + 1 < |str| && str[s + 1] == '<') ==> TextEnd(str, s) == s + 1
    ensures str[s] == '\\' && s + 1 < |str| && str[s + 1] == '<' ==> TextEnd(str, s) == SkipAngle(str, s + 2)
  {
  }

  /** A quotation is one piece, up to its end. */
  lemma QuotedPiece(str: string, s: nat)
    requires s < |str|
    ensures str[s] == '\'' ==> TextEnd(str, s) == SingleQuoteEnd(str, s + 1)
    ensures str[s] == '\"' ==> TextEnd(str, s) == DoubleQuoteEnd(str, s + 1)
  {
  }

  // ----- Escapes of one character

  lemma LetterEscapes(str: string, s: nat)
    requires s + 1 < |str| && str[s] == '\\'
    ensures str[s + 1] == 'a' ==> Escape(str, s) == (s + 2, [7 as char])
    ensures str[s + 1] == 'b' ==> Escape(str, s) == (s + 2, [8 as char])
    ensures str[s + 1] == 't' ==> Escape(str, s) == (s + 2, [9 as char])
    ensures str[s + 1] == 'n' ==> Escape(str, s) == (s + 2, [10 as char])
    ensures str[s + 1] == 'v' ==> Escape(str, s) == (s + 2, [11 as char])
    ensures str[s + 1] == 'f' ==> Escape(str, s) == (s + 2, [12 as char])
    ensures str[s + 1] == 'r' ==> Escape(str, s) == (s + 2, [13 as char])
    ensures str[s + 1] == '\n' ==> Escape(str, s) == (s + 2, "")
    ensures str[s + 1] !in "abtnvfr\n\r<x01234567" ==> Escape(str, s) == (s + 2, [str[s + 1]])
  {
  }

  /** A line may be continued after a backslash, whatever its end. */
  lemma LineContinued(str: string, s: nat)
    requires s + 1 < |str| && str[s] == '\\' && str[s + 1] == '\r'
    ensures s + 2 < |str| && str[s + 2] == '\n' ==> Escape(str, s) == (s + 3, "")
    ensures s + 2 == |str| || str[s + 2] != '\n' ==> Escape(str, s) == (s + 2, "")
  {
  }

  // ----- Octal and hexadecimal escapes

  /** One to three octal digits, and no more octal digit behind fewer than three. */
  lemma OctalEscape(str: string, s: nat, digits: string)
    requires 1 <= |digits| <= 3 && forall i :: 0 <= i < |digits| ==> '0' <= digits[i] <= '7'
    requires At(str, s, "\\" + digits)
    requires var e := s + 1 + |digits|; |digits| < 3 && e < |str| ==> !('0' <= str[e] <= '7')
    ensures s < |str| && str[s] == '\\'
    ensures var d := seq(|digits|, i requires 0 <= i < |digits| => digits[i] as int - '0' as int);
            var n := if |d| == 1 then d[0] else if |d| == 2 then 8 * d[0] + d[1] else 64 * d[0] + 8 * d[1] + d[2];
            Escape(str, s) == (s + 1 + |digits|, [(n % 256) as char])
  {
    var all := "\\" + digits;
    AtIndex(str, s, all, 0);
    AtIndex(str, s, all, 1);
    if |digits| > 1 { AtIndex(str, s, all, 2); }
    if |digits| > 2 { AtIndex(str, s, all, 3); }
    OctalRead(str, s + 1, |digits|);
    hide Octal;
  }

  lemma OctalRead(str: string, t: nat, k: nat)
    requires 1 <= k <= 3 && t + k <= |str| && forall i :: t <= i < t + k ==> '0' <= str[i] <= '7'
    requires k < 3 && t + k < |str| ==> !('0' <= str[t + k] <= '7')
    ensures var a := str[t] as int - '0' as int;
            Octal(str, t, 3, 0) == (t + k,
              if k == 1 then a
              else if k == 2 then 8 * a + (str[t + 1] as int - '0' as int)
              else 64 * a + 8 * (str[t + 1] as int - '0' as int) + (str[t + 2] as int - '0' as int))
  {
    var a := (str[t] - '0') as nat;
    if k == 1 {
      assert Octal(str, t + 1, 2, a) == (t + 1, a);
    } else {
      var b := (str[t + 1] - '0') as nat;
      if k == 2 {
        assert Octal(str, t + 2, 1, a * 8 + b) == (t + 2, a * 8 + b);
      } else {
        var c := (str[t + 2] - '0') as nat;
        assert Octal(str, t + 3, 0, (a * 8 + b) * 8 + c) == (t + 3, (a * 8 + b) * 8 + c);
        assert Octal(str, t + 2, 1, a * 8 + b) == (t + 3, (a * 8 + b) * 8 + c);
      }
      assert Octal(str, t + 1, 2, a) == Octal(str, t + 2, 1, a * 8 + b);
    }
  }

  /** A digit from 0 to 15 in either case. */
  predicate IsHex(c: char, v: nat) {
    v < 16 && (c == Lower[v] || c == Upper[v])
  }

  ghost predicate AreHex(text: string, digits: seq<nat>) {
    |text| == |digits| && forall i :: 0 <= i < |text| ==> IsHex(text[i], digits[i])
  }

  lemma IsHexValue(c: char, v: nat)
    requires IsHex(c, v)
    ensures HexValue(c) == v
  {
    HexDigitsAre();
  }

  /** What the digits read so far and those to come amount to, modulo 256. */
  function LastByte(c: nat, digits: seq<nat>): nat {
    var k := |digits|;
    if k == 0 then c % 256 else if k == 1 then (16 * c + digits[0]) % 256
    else (16 * digits[k - 2] + digits[k - 1]) % 256
  }

  ghost predicate NoHexAt(str: string, e: nat) {
    e < |str| ==> str[e] !in Lower && str[e] !in Upper
  }

  lemma NoMoreHex(str: string, e: nat)
    requires NoHexAt(str, e)
    ensures e < |str| ==> HexValue(str[e]) < 0
  {
    if e < |str| { HexDigitsOnly(str[e]); }
  }

  lemma AreHexTail(text: string, digits: seq<nat>)
    requires AreHex(text, digits) && text != ""
    ensures digits != [] && IsHex(text[0], digits[0]) && AreHex(text[1..], digits[1..])
  {
    hide IsHex;
  }

  lemma {:induction false} HexRead(str: string, s: nat, text: string, digits: seq<nat>, c: nat)
    requires At(str, s, text) && AreHex(text, digits) && NoHexAt(str, s + |text|)
    ensures var (e, n) := Hex(str, s, c); e == s + |text| && n % 256 == LastByte(c, digits)
    decreases |text|
  {
    hide HexValue, AreHex, IsHex, NoHexAt, At;
    if text == "" {
      NoMoreHex(str, s);
      NoDigits(text, digits);
    } else {
      hide LastByte;
      AreHexTail(text, digits);
      var v := digits[0];
      assert text == [text[0]] + text[1..];
      AtSplit(str, s, [text[0]], text[1..]);
      AtIndex(str, s, [text[0]], 0);
      IsHexValue(text[0], v);
      HexRead(str, s + 1, text[1..], digits[1..], c * 16 + v);
      LastByteStep(c, digits);
    }
  }

  lemma NoDigits(text: string, digits: seq<nat>)
    requires AreHex(text, digits) && text == ""
    ensures digits == []
  {
  }

  lemma LastByteStep(c: nat, digits: seq<nat>)
    requires digits != []
    ensures LastByte(c * 16 + digits[0], digits[1..]) == LastByte(c, digits)
  {
    var k, rest := |digits|, digits[1..];
    if k == 2 {
      WholeBytes(c, 16 * digits[0] + digits[1]);
      assert rest[0] == digits[1];
    } else if k > 2 {
      assert rest[k - 3] == digits[k - 2] && rest[k - 2] == digits[k - 1];
    }
  }

  lemma WholeBytes(c: nat, x: nat)
    ensures (256 * c + x) % 256 == x % 256
  {
  }

  lemma LastByteIs(text: string, digits: seq<nat>)
    requires AreHex(text, digits)
    ensures var k := |digits|;
            var n := if k == 0 then 0 else if k == 1 then digits[0] else 16 * digits[k - 2] + digits[k - 1];
            n < 256 && LastByte(0, digits) == n
  {
    var k := |digits|;
    assert k > 0 ==> IsHex(text[k - 1], digits[k - 1]);
    assert k > 1 ==> IsHex(text[k - 2], digits[k - 2]);
  }

  /** Any number of hexadecimal digits in either case: the byte is that of the last two. */
  lemma HexEscape(str: string, s: nat, text: string, digits: seq<nat>)
    requires At(str, s, "\\x" + text) && AreHex(text, digits) && NoHexAt(str, s + 2 + |text|)
    ensures s < |str| && str[s] == '\\'
    ensures var k := |digits|;
            var n := if k == 0 then 0 else if k == 1 then digits[0] else 16 * digits[k - 2] + digits[k - 1];
            n < 256 && Escape(str, s) == (s + 2 + |text|, [n as char])
  {
    AtSplit(str, s, "\\x", text);
    AtIndex(str, s, "\\x", 0);
    AtIndex(str, s, "\\x", 1);
    hide Hex, LastByte, AreHex, NoHexAt, At;
    HexRead(str, s + 2, text, digits, 0);
    LastByteIs(text, digits);
  }

  // ----- Strings of bytes in angle brackets

  /** What may stand between the brackets: a digit from 0 to 15, a character that means nothing, or
      a comment. */
  datatype Piece = Digit(v: nat, upper: bool) | Blank(c: char) | Comment(body: string)

  predicate PieceOk(p: Piece) {
    match p
    case Digit(v, _) => v < 16
    case Blank(c) => c !in Lower && c !in Upper && c != '>' && c != '/'
    case Comment(body) => forall i :: 0 <= i < |body| ==> !(body[i] == '*' && (body + "*/")[i + 1] == '/')
  }

  function Written(p: Piece): string
    requires PieceOk(p)
  {
    match p
    case Digit(v, upper) => if upper then [Upper[v]] else [Lower[v]]
    case Blank(c) => [c]
    case Comment(body) => "/*" + body + "*/"
  }

  ghost predicate PiecesOk(ps: seq<Piece>) {
    forall i :: 0 <= i < |ps| ==> PieceOk(ps[i])
  }

  function WrittenAll(ps: seq<Piece>): string
    requires PiecesOk(ps)
  {
    if ps == [] then "" else Written(ps[0]) + WrittenAll(ps[1..])
  }

  /** The digits, in order. */
  function Digits(ps: seq<Piece>): seq<nat> {
    if ps == [] then [] else (if ps[0].Digit? then [ps[0].v] else []) + Digits(ps[1..])
  }

  ghost predicate Small(digits: seq<nat>) {
    forall i :: 0 <= i < |digits| ==> digits[i] < 16
  }

  /** Two digits make a byte, the first counting sixteen times; one left over is dropped. */
  function Paired(digits: seq<nat>): string
    requires Small(digits)
  {
    if |digits| < 2 then "" else [(16 * digits[0] + digits[1]) as char] + Paired(digits[2..])
  }

  lemma {:induction false} DigitsSmall(ps: seq<Piece>)
    requires PiecesOk(ps)
    ensures Small(Digits(ps))
  {
    if ps != [] {
      assert PieceOk(ps[0]);
      DigitsSmall(ps[1..]);
    }
  }

  /** Byte `i` is made of digits `2 * i` and `2 * i + 1`. */
  lemma {:induction false} PairedAt(digits: seq<nat>, i: nat)
    requires Small(digits) && 2 * i + 1 < |digits|
    ensures |Paired(digits)| == |digits| / 2 && Paired(digits)[i] as int == 16 * digits[2 * i] + digits[2 * i + 1]
    decreases |digits|
  {
    PairedLength(digits);
    if i > 0 {
      PairedAt(digits[2..], i - 1);
    }
  }

  lemma {:induction false} PairedLength(digits: seq<nat>)
    requires Small(digits)
    ensures |Paired(digits)| == |digits| / 2
    decreases |digits|
  {
    if |digits| >= 2 {
      PairedLength(digits[2..]);
    }
  }

  /** How the piece at `s` is met. */
  lemma PieceMet(str: string, s: nat, p: Piece)
    requires PieceOk(p) && At(str, s, Written(p))
    ensures s < |str| && str[s] != '>'
    ensures p.Digit? ==> |Written(p)| == 1 && HexValue(str[s]) == p.v && !StartsComment(str, s)
    ensures p.Blank? ==> |Written(p)| == 1 && HexValue(str[s]) < 0 && !StartsComment(str, s)
    ensures p.Comment? ==>
        HexValue(str[s]) < 0 && StartsComment(str, s) && SkipComment(str, s) == s + |Written(p)|
  {
    AtIndex(str, s, Written(p), 0);
    HexDigitsAre();
    HexDigitsOnly(str[s]);
    match p
    case Digit(v, upper) => DigitPlain(str, s, v);
    case Blank(c) =>
    case Comment(body) =>
      hide SkipComment, StartsComment;
      StarComment(str, s, body);
      SlashNoHex();
  }

  lemma DigitPlain(str: string, s: nat, v: nat)
    requires s < |str| && v < 16 && (str[s] == Lower[v] || str[s] == Upper[v])
    ensures str[s] != '/' && str[s] != '>'
  {
  }

  lemma SlashNoHex()
    ensures HexValue('/') < 0
  {
  }

  ghost function Pending(c: nat, d: nat): seq<nat> {
    if d == 1 then [c] else []
  }

  lemma AngleStep(str: string, s: nat, c: nat, d: nat)
    requires s < |str| && str[s] != '>'
    ensures HexValue(str[s]) >= 0 && d == 1 ==>
        var (e, rest) := Angle(str, s + 1, 0, 0); Angle(str, s, c, d) == (e, [ByteOf(c * 16 + HexValue(str[s]))] + rest)
    ensures HexValue(str[s]) >= 0 && d != 1 ==>
        Angle(str, s, c, d) == Angle(str, s + 1, c * 16 + HexValue(str[s]), d + 1)
    ensures HexValue(str[s]) < 0 && StartsComment(str, s) ==>
        Angle(str, s, c, d) == Angle(str, SkipComment(str, s), c, d)
    ensures HexValue(str[s]) < 0 && !StartsComment(str, s) ==> Angle(str, s, c, d) == Angle(str, s + 1, c, d)
  {
    hide HexValue, StartsComment, SkipComment, ByteOf;
  }

  lemma AngleClose(str: string, s: nat, c: nat, d: nat)
    requires s < |str| && str[s] == '>'
    ensures Angle(str, s, c, d) == (s + 1, "")
  {
  }

  lemma PendingAlone(c: nat, d: nat)
    requires c < 16
    ensures Small(Pending(c, d)) && Paired(Pending(c, d)) == "" && Pending(c, d) + [] == Pending(c, d)
  {
  }

  lemma PendingSmall(c: nat, d: nat, digits: seq<nat>)
    requires c < 16 && Small(digits)
    ensures Small(Pending(c, d) + digits)
  {
  }

  lemma PendingOne(c: nat, v: nat, tail: seq<nat>)
    ensures Pending(c, 1) + ([v] + tail) == [c, v] + tail && Pending(0, 0) + tail == tail
  {
  }

  lemma PendingNone(v: nat, tail: seq<nat>)
    ensures Pending(0, 0) + ([v] + tail) == Pending(v, 1) + tail
  {
  }

  lemma NothingBefore(tail: seq<nat>)
    ensures [] + tail == tail
  {
  }

  lemma WrittenCons(ps: seq<Piece>)
    requires PiecesOk(ps) && ps != []
    ensures PieceOk(ps[0]) && PiecesOk(ps[1..])
    ensures WrittenAll(ps) + ">" == Written(ps[0]) + (WrittenAll(ps[1..]) + ">")
    ensures |WrittenAll(ps)| == |Written(ps[0])| + |WrittenAll(ps[1..])|
    ensures Digits(ps) == (if ps[0].Digit? then [ps[0].v] else []) + Digits(ps[1..])
  {
    hide Written, PieceOk;
  }

  lemma WrittenNone()
    ensures WrittenAll([]) == "" && WrittenAll([]) + ">" == ">" && Digits([]) == []
  {
  }

  lemma {:induction false} AngleRead(str: string, s: nat, ps: seq<Piece>, c: nat, d: nat)
    requires PiecesOk(ps) && At(str, s, WrittenAll(ps) + ">") && d <= 1 && c < 16 && (d == 0 ==> c == 0)
    ensures Small(Pending(c, d) + Digits(ps))
    ensures Angle(str, s, c, d) == (s + |WrittenAll(ps)| + 1, Paired(Pending(c, d) + Digits(ps)))
    decreases |ps|
  {
    hide HexValue, At, StartsComment, SkipComment, Written, WrittenAll, Digits, Angle, PieceOk, PiecesOk, Paired, Small,
        ByteOf, Pending;
    DigitsSmall(ps);
    PendingSmall(c, d, Digits(ps));
    if ps == [] {
      WrittenNone();
      AtIndex(str, s, ">", 0);
      AtEnds(str, s, ">");
      AngleClose(str, s, c, d);
      PendingAlone(c, d);
    } else {
      WrittenCons(ps);
      var w, tail := Written(ps[0]), Digits(ps[1..]);
      AtSplit(str, s, w, WrittenAll(ps[1..]) + ">");
      PieceMet(str, s, ps[0]);
      AngleStep(str, s, c, d);
      if ps[0].Digit? {
        DigitBelow(ps[0]);
        var v := ps[0].v;
        DigitsSmall(ps[1..]);
        if d == 1 {
          AngleRead(str, s + 1, ps[1..], 0, 0);
          PairFirst(c, v, tail);
          PendingOne(c, v, tail);
        } else {
          AngleRead(str, s + 1, ps[1..], v, 1);
          PendingNone(v, tail);
        }
      } else {
        AngleRead(str, s + |w|, ps[1..], c, d);
        NothingBefore(tail);
      }
    }
  }

  lemma DigitBelow(p: Piece)
    requires PieceOk(p) && p.Digit?
    ensures p.v < 16
  {
  }

  lemma AtEnds(str: string, s: nat, piece: string)
    requires At(str, s, piece)
    ensures s + |piece| <= |str|
  {
  }

  lemma PairFirst(c: nat, v: nat, digits: seq<nat>)
    requires c < 16 && v < 16 && Small(digits)
    ensures Small([c, v] + digits)
    ensures Paired([c, v] + digits) == [ByteOf(c * 16 + v)] + Paired(digits)
  {
    assert ([c, v] + digits)[2..] == digits;
  }

  /** Two digits for each byte, in either case, with blanks and comments anywhere. */
  lemma AngleEscape(str: string, s: nat, ps: seq<Piece>)
    requires PiecesOk(ps) && At(str, s, "\\<" + WrittenAll(ps) + ">")
    ensures s < |str| && str[s] == '\\'
    ensures var (e, text) := Escape(str, s); var d := Digits(ps);
            && e == s + |WrittenAll(ps)| + 3 && |text| == |d| / 2
            && forall i :: 0 <= i < |text| ==> text[i] as int == 16 * d[2 * i] + d[2 * i + 1]
  {
    var w := WrittenAll(ps);
    assert "\\<" + w + ">" == "\\<" + (w + ">");
    AtSplit(str, s, "\\<", w + ">");
    AtIndex(str, s, "\\<", 0);
    AtIndex(str, s, "\\<", 1);
    AngleIs(str, s);
    hide Angle, At, HexValue, Escape, Paired, WrittenAll, Digits;
    AngleRead(str, s + 2, ps, 0, 0);
    var d := Digits(ps);
    DigitsSmall(ps);
    assert Pending(0, 0) + d == d;
    PairedIs(d);
  }

  lemma AngleIs(str: string, s: nat)
    requires s + 1 < |str| && str[s] == '\\' && str[s + 1] == '<'
    ensures Escape(str, s) == Angle(str, s + 2, 0, 0)
  {
    hide Angle;
  }

  lemma PairedIs(d: seq<nat>)
    requires Small(d)
    ensures var text := Paired(d);
            |text| == |d| / 2 && forall i :: 0 <= i < |text| ==> text[i] as int == 16 * d[2 * i] + d[2 * i + 1]
  {
    hide Paired;
    PairedLength(d);
    var text := Paired(d);
    forall i | 0 <= i < |text| ensures text[i] as int == 16 * d[2 * i] + d[2 * i + 1] {
      PairedAt(d, i);
    }
  }

  lemma {:induction false} AngleSkipped(str: string, s: nat, ps: seq<Piece>)
    requires PiecesOk(ps) && At(str, s, WrittenAll(ps) + ">")
    ensures SkipAngle(str, s) == s + |WrittenAll(ps)| + 1
    decreases |ps|
  {
    hide HexValue, At, StartsComment, SkipComment, Written;
    if ps == [] {
      assert WrittenAll(ps) + ">" == ">";
      AtIndex(str, s, ">", 0);
      AtEnds(str, s, ">");
    } else {
      var w, rest := Written(ps[0]), WrittenAll(ps[1..]);
      assert PieceOk(ps[0]) && PiecesOk(ps[1..]);
      assert WrittenAll(ps) + ">" == w + (rest + ">");
      AtSplit(str, s, w, rest + ">");
      PieceMet(str, s, ps[0]);
      AngleSkipped(str, s + |w|, ps[1..]);
    }
  }

  // ----- Unquoting

  /** A whole text that is one escape. */
  lemma AngleText(ps: seq<Piece>)
    requires PiecesOk(ps)
    ensures var str := "\\<" + WrittenAll(ps) + ">"; Uncommented(str, 0, false) == (|str|, str)
  {
    hide WrittenAll, PiecesOk;
    var w := WrittenAll(ps);
    var str := "\\<" + w + ">";
    var e := |str|;
    assert str == "\\<" + (w + ">") && str[0..e] == str;
    AtSplit(str, 0, "\\<", w + ">");
    AngleSkipped(str, 2, ps);
    hide SkipAngle;
    OnePiece(str);
  }

  lemma OnePiece(str: string)
    requires |str| > 2 && str[0] == '\\' && str[1] == '<' && SkipAngle(str, 2) == |str|
    ensures Uncommented(str, 0, false) == (|str|, str)
  {
    hide SkipAngle;
    var st := Scan(0, 0, 0, false, "");
    assert SkipCommentSpace(str, 0) == 0;
    assert TextEnd(str, 0) == |str|;
    assert ScanStep(str, st) == Scan(|str|, 0, |str|, false, "");
    assert ScanAll(str, false, Scan(|str|, 0, |str|, false, "")) == Scan(|str|, 0, |str|, false, "");
    assert ScanAll(str, false, st) == Scan(|str|, 0, |str|, false, "");
    assert "" + Sub(str, 0, |str|) == str;
  }

  /** Unquoting a string of bytes in angle brackets gives the bytes. */
  lemma UnquoteAngle(ps: seq<Piece>)
    requires PiecesOk(ps)
    ensures var text := Unquoted("\\<" + WrittenAll(ps) + ">"); var d := Digits(ps);
            |text| == |d| / 2 && forall i :: 0 <= i < |text| ==> text[i] as int == 16 * d[2 * i] + d[2 * i + 1]
  {
    hide Uncommented, WrittenAll, PiecesOk, Digits;
    var str := "\\<" + WrittenAll(ps) + ">";
    AngleText(ps);
    assert str[0..|str|] == str;
    AngleEscape(str, 0, ps);
    hide Escape;
    MeaningEscape(str);
  }

  lemma MeaningEscape(str: string)
    requires |str| > 2 && str[0] == '\\' && str[1] == '<' && Escape(str, 0).0 == |str|
    ensures Meaning(str, 0, NONE) == Escape(str, 0).1
  {
    hide Escape;
    assert Meaning(str, |str|, NONE) == "";
    assert Escape(str, 0).1 + "" == Escape(str, 0).1;
  }

  /** Between single quotes every character stands for itself. */
  lemma UnquoteSingle(body: string)
    requires '\'' !in body
    ensures Unquoted("'" + body + "'") == body
  {
    var str := "'" + body + "'";
    assert str[1..|str|] == body + "'";
    SingleQuoteIs(str, 1, body);
    hide SingleQuoteEnd;
    OneQuotation(str);
    hide Uncommented;
    MeaningSingle(str, 1, body);
  }

  lemma OneQuotation(str: string)
    requires |str| > 1 && str[0] == '\'' && SingleQuoteEnd(str, 1) == |str|
    ensures Uncommented(str, 0, false) == (|str|, str)
  {
    hide SingleQuoteEnd;
    var st := Scan(0, 0, 0, false, "");
    assert SkipCommentSpace(str, 0) == 0;
    assert TextEnd(str, 0) == |str|;
    assert ScanStep(str, st) == Scan(|str|, 0, |str|, false, "");
    assert ScanAll(str, false, Scan(|str|, 0, |str|, false, "")) == Scan(|str|, 0, |str|, false, "");
    assert ScanAll(str, false, st) == Scan(|str|, 0, |str|, false, "");
    assert "" + Sub(str, 0, |str|) == str;
  }

  lemma {:induction false} MeaningSingle(str: string, s: nat, body: string)
    requires At(str, s, body + "'") && s + |body| + 1 == |str| && '\'' !in body
    ensures Meaning(str, s, '\'') == body
    decreases |body|
  {
    hide Escape;
    AtIndex(str, s, body + "'", 0);
    if body != "" {
      assert body[0] in body && forall c :: c in body[1..] ==> c in body;
      assert body + "'" == [body[0]] + (body[1..] + "'");
      AtSplit(str, s, [body[0]], body[1..] + "'");
      MeaningSingle(str, s + 1, body[1..]);
      assert [body[0]] + body[1..] == body;
    } else {
      assert Meaning(str, s + 1, NONE) == "";
    }
  }

  lemma Cons(p: Piece, ps: seq<Piece>, w: string, d: seq<nat>)
    requires PieceOk(p) && PiecesOk(ps) && WrittenAll(ps) == w && Digits(ps) == d
    ensures PiecesOk([p] + ps) && WrittenAll([p] + ps) == Written(p) + w
    ensures Digits([p] + ps) == (if p.Digit? then [p.v] else []) + d
  {
    hide PieceOk, Written;
    assert ([p] + ps)[1..] == ps;
  }

  lemma NoPieces()
    ensures PiecesOk([]) && WrittenAll([]) == "" && Digits([]) == []
  {
  }

  lemma LetterPieces() returns (ps: seq<Piece>)
    ensures PiecesOk(ps) && WrittenAll(ps) == "4 8" && Digits(ps) == [4, 8]
  {
    hide PiecesOk, WrittenAll, Digits;
    ps := [];
    NoPieces();
    Cons(Digit(8, false), ps, "", []);
    ps := [Digit(8, false)] + ps;
    assert WrittenAll(ps) == "8" && Digits(ps) == [8];
    Cons(Blank(' '), ps, "8", [8]);
    ps := [Blank(' ')] + ps;
    assert WrittenAll(ps) == " 8" && Digits(ps) == [8];
    Cons(Digit(4, false), ps, " 8", [8]);
    ps := [Digit(4, false)] + ps;
    assert WrittenAll(ps) == "4 8" && Digits(ps) == [4, 8];
  }

  /** Byte 0x48 is the letter H. */
  lemma Letter()
    ensures Unquoted("\\<4 8>") == "H"
  {
    var ps := LetterPieces();
    UnquoteAngle(ps);
    hide Unquoted, WrittenAll, Digits, PiecesOk;
    assert "\\<" + "4 8" + ">" == "\\<4 8>";
    var text := Unquoted("\\<4 8>");
    assert |text| == 1 && text[0] as int == 16 * 4 + 8;
  }

  // ----- Quoting

  /** How one byte is quoted. */
  lemma QuotedByte(c: char, allowNewlines: bool)
    requires c as int < 256
    ensures c in "\\\"$" ==> Quoted1(c, allowNewlines) == ['\\', c]
    ensures c as int == 9 ==> Quoted1(c, allowNewlines) == "\\t"
    ensures c as int == 13 ==> Quoted1(c, allowNewlines) == "\\r"
    ensures c as int == 10 ==> Quoted1(c, allowNewlines) == if allowNewlines then [c] else "\\n"
    ensures 32 <= c as int < 127 && c !in "\\\"$" ==> Quoted1(c, allowNewlines) == [c]
  {
  }

  /** Other bytes are three octal digits. */
  lemma QuotedOctal(c: char, allowNewlines: bool)
    requires c as int < 256 && (c as int >= 127 || (c as int < 32 && c as int !in {9, 10, 13}))
    ensures var q := Quoted1(c, allowNewlines);
        && |q| == 4 && q[0] == '\\' && '0' <= q[1] <= '3' && '0' <= q[2] <= '7' && '0' <= q[3] <= '7'
        && 64 * (q[1] as int - 48) + 8 * (q[2] as int - 48) + (q[3] as int - 48) == c as int
  {
  }

  lemma QuotedCases(c: char, allowNewlines: bool)
    requires c as int < 256
    ensures var q := Quoted1(c, allowNewlines);
            forall i :: 0 <= i < |q| ==>
              && (32 <= q[i] as int < 127 || (allowNewlines && q[i] as int == 10))
              && (q[i] in "$\"" ==> i > 0 && q[i - 1] == '\\')
  {
    hide Quoted1;
    QuotedByte(c, allowNewlines);
    if c as int >= 127 || (c as int < 32 && c as int !in {9, 10, 13}) {
      QuotedOctal(c, allowNewlines);
    }
  }

  /** A quoted text is printable, but for the newlines that are allowed. */
  lemma {:induction false} QuotedPrintable(str: string, allowNewlines: bool, i: nat)
    requires Bytes(str) && i < |QuotedBody(str, allowNewlines)|
    ensures var c := QuotedBody(str, allowNewlines)[i]; 32 <= c as int < 127 || (allowNewlines && c as int == 10)
    decreases |str|
  {
    var q := Quoted1(str[0], allowNewlines);
    QuotedCases(str[0], allowNewlines);
    hide Quoted1;
    if i >= |q| {
      QuotedPrintable(str[1..], allowNewlines, i - |q|);
    }
  }

  /** A dollar sign or double quote in it follows a backslash, so that nothing is expanded. */
  lemma {:induction false} DollarQuoted(str: string, allowNewlines: bool, i: nat)
    requires Bytes(str) && i < |QuotedBody(str, allowNewlines)| && QuotedBody(str, allowNewlines)[i] in "$\""
    ensures i > 0 && QuotedBody(str, allowNewlines)[i - 1] == '\\'
    decreases |str|
  {
    var q := Quoted1(str[0], allowNewlines);
    QuotedCases(str[0], allowNewlines);
    hide Quoted1;
    if i >= |q| {
      DollarQuoted(str[1..], allowNewlines, i - |q|);
    }
  }

  // ----- Text without quotes

  /** Text without quotes and without `\<` stands for itself, other backslashes included. */
  lemma {:induction false} MeaningPlain(x: string, s: nat)
    requires s <= |x| && '\"' !in x && '\'' !in x
    requires forall i :: 0 <= i < |x| - 1 ==> !(x[i] == '\\' && x[i + 1] == '<')
    ensures Meaning(x, s, NONE) == x[s..]
    decreases |x| - s
  {
    hide Escape;
    if s < |x| {
      assert x[s] in x;
      MeaningPlain(x, s + 1);
      assert x[s..] == [x[s]] + x[s + 1..];
    }
  }

  /** Items are joined with a comma and a space. */
  lemma JoinedItems(conf: seq<string>, item: string)
    ensures Unargvec([item]) == item
    ensures conf != [] ==> Unargvec(conf + [item]) == Unargvec(conf) + ", " + item
  {
    assert (conf + [item])[..|conf|] == conf;
  }
}
